/**
  Which operand fields the assembler accepts. The texts of the grammar's expressions are exactly the accepted fields
  in which no unary operator follows an operand and each one binds more tightly than the operator before it; a count
  says of every other field whether it is accepted.
 */
module AsmAcceptance {
  import opened Arithmetic
  import opened AsmArithmetic
  import opened AsmExpression

  const START := Machine([], [], true, false)

  function Last(ts: seq<Token>): Token
    requires ts != []
  {
    ts[|ts| - 1]
  }

  function Front(ts: seq<Token>): seq<Token>
    requires ts != []
  {
    ts[..|ts| - 1]
  }

  // An operand is expected after these items.
  predicate Open(ts: seq<Token>) { ts == [] || (Last(ts).Oper? && Last(ts).op != RPAR) }

  predicate UnaryToken(t: Token) { t.Oper? && IsUnary(t.op) }

  // Unary operators that stand after an operand, where a binary one is expected.
  function Infixes(ts: seq<Token>): nat {
    if ts == [] then 0 else Infixes(Front(ts)) + if UnaryToken(Last(ts)) && !Open(Front(ts)) then 1 else 0
  }

  // The priority of the operator that an operand is expected for; signs that are plus do not count.
  function Before(ts: seq<Token>): int {
    if ts == [] then 0
    else if Last(ts) == Oper(ADD) && Open(Front(ts)) then Before(Front(ts))
    else if Last(ts).Oper? then Prio(Last(ts).op)
    else 0
  }

  // A sign or NOT binds more tightly than the operator before it.
  predicate Binds(ts: seq<Token>)
    requires ts != []
  {
    Last(ts) in {Oper(SUB), Oper(NOT)} && Open(Front(ts)) ==> Before(Front(ts)) < Prio(Last(ts).op)
  }

  predicate AllBind(ts: seq<Token>) { ts == [] || (AllBind(Front(ts)) && Binds(ts)) }

  // --- the last item of a run

  lemma RunLast(mean: Meaning, ts: seq<Token>)
    requires ts != [] && !Run(mean, START, ts).err
    ensures var m := Run(mean, START, Front(ts));
      !m.err && Run(mean, START, ts) == Step(mean, m, Last(ts))
  {
    assert ts == Front(ts) + [Last(ts)];
    RunAppend(mean, START, Front(ts), [Last(ts)]);
    RunOne(mean, Run(mean, START, Front(ts)), Last(ts));
  }

  // --- counting values

  lemma BinariesOn(ops: seq<Op>, op: Op)
    ensures Binaries(ops + [op]) == Binaries(ops) + if IsBinary(op) then 1 else 0
  {
    assert (ops + [op])[..|ops|] == ops;
  }

  // An operator applied without an error takes the place of its operands.
  lemma ApplyBalance(mean: Meaning, m: Machine)
    requires m.ops != [] && !Apply(mean, DropOp(m), TopOp(m)).err
    ensures var m' := Apply(mean, DropOp(m), TopOp(m));
      && !m.err && m'.ops == m.ops[..|m.ops| - 1] && (IsBinary(TopOp(m)) || IsUnary(TopOp(m)))
      && |m'.vals| - Binaries(m'.ops) == |m.vals| - Binaries(m.ops)
  {
    BinariesOn(m.ops[..|m.ops| - 1], TopOp(m));
    assert m.ops[..|m.ops| - 1] + [TopOp(m)] == m.ops;
  }

  lemma {:induction false} ReduceBalance(mean: Meaning, m: Machine, p: int)
    requires !Reduce(mean, m, p).err
    ensures var m' := Reduce(mean, m, p);
      && !m.err && m'.unary == m.unary && (m'.ops == [] || Prio(TopOp(m')) < p)
      && |m'.vals| - Binaries(m'.ops) == |m.vals| - Binaries(m.ops)
    decreases |m.ops|
  {
    ReduceStep(mean, m, p);
    if m.ops != [] && Prio(TopOp(m)) >= p {
      var m1 := Apply(mean, DropOp(m), TopOp(m));
      ReduceBalance(mean, m1, p);
      ApplyBalance(mean, m);
    }
  }

  // Values wait for their operators, one for each binary one, one for each unary operator after an operand, and
  // one that has just been read.
  ghost predicate Balanced(m: Machine, ts: seq<Token>) {
    m.unary == Open(ts) && |m.vals| == Binaries(m.ops) + Infixes(ts) + if m.unary then 0 else 1
  }

  lemma {:induction false} Balance(mean: Meaning, ts: seq<Token>)
    requires !Run(mean, START, ts).err
    ensures Balanced(Run(mean, START, ts), ts)
    decreases |ts|
  {
    if ts != [] {
      RunLast(mean, ts);
      Balance(mean, Front(ts));
      StepBalance(mean, Run(mean, START, Front(ts)), ts);
    }
  }

  lemma StepBalance(mean: Meaning, m: Machine, ts: seq<Token>)
    requires ts != [] && !m.err && Balanced(m, Front(ts)) && !Step(mean, m, Last(ts)).err
    ensures Balanced(Step(mean, m, Last(ts)), ts)
  {
    var m' := Step(mean, m, Last(ts));
    StepCount(mean, m, Last(ts), m');
    CountBalance(m, ts, Last(ts), m');
  }

  lemma CountBalance(m: Machine, ts: seq<Token>, t: Token, m': Machine)
    requires ts != [] && t == Last(ts) && Balanced(m, Front(ts)) && m'.unary == (t.Oper? && t.op != RPAR)
    requires (t.Operand? || t == Oper(LPAR) ==> m.unary) && (t == Oper(RPAR) ==> !m.unary)
    requires m.unary && t.Oper? ==> t.op in {LPAR, ADD, SUB, NOT}
    requires Spare(m') == Spare(m) + if t.Operand? then 1 else if IsBinary(t.op) && !m.unary then -1 else 0
    ensures Balanced(m', ts)
  {
  }

  // The values beyond those that wait for a binary operator.
  function Spare(m: Machine): int { |m.vals| - Binaries(m.ops) }

  // An operand adds one, a binary operator after an operand takes one.
  lemma StepCount(mean: Meaning, m: Machine, t: Token, m': Machine)
    requires !m.err && m' == Step(mean, m, t) && !m'.err
    ensures m'.unary == (t.Oper? && t.op != RPAR) && (t.Operand? ==> m.unary) && (t == Oper(RPAR) ==> !m.unary)
    ensures m.unary && t.Oper? ==> t.op in {LPAR, ADD, SUB, NOT}
    ensures t == Oper(LPAR) ==> m.unary
    ensures Spare(m') == Spare(m) + if t.Operand? then 1 else if IsBinary(t.op) && !m.unary then -1 else 0
  {
    match t
    case Operand(v) =>
    case Oper(op) =>
      if op == LPAR {
        BinariesOn(m.ops, LPAR);
      } else if !m.unary {
        EnterBalance(mean, m, op);
      } else {
        SignBalance(mean, m, op);
      }
  }

  lemma SignBalance(mean: Meaning, m: Machine, op: Op)
    requires !m.err && m.unary && op != LPAR && !Step(mean, m, Oper(op)).err
    ensures var m' := Step(mean, m, Oper(op)); op in {ADD, SUB, NOT} && m'.unary && Spare(m') == Spare(m)
  {
    if op == SUB {
      EnterBalance(mean, m, NEG);
    } else if op == NOT {
      EnterBalance(mean, m, NOT);
    } else if op != ADD {
      StaysWrong(mean, m.(err := true), op);
    }
  }

  lemma EnterBalance(mean: Meaning, m: Machine, op: Op)
    requires !Enter(mean, m, op).err && op != LPAR
    ensures var m' := Enter(mean, m, op);
      && !m.err && m'.unary == (op != RPAR)
      && |m'.vals| - Binaries(m'.ops) == |m.vals| - Binaries(m.ops) - if IsBinary(op) then 1 else 0
  {
    var m1 := Reduce(mean, m, Prio(op));
    NoErrorBefore(m1, op, Enter(mean, m, op));
    ReduceBalance(mean, m, Prio(op));
    if op != RPAR {
      BinariesOn(m1.ops, op);
    } else {
      CloseBalance(m1, Enter(mean, m, op));
    }
  }

  lemma NoErrorBefore(m1: Machine, op: Op, m': Machine)
    requires !m'.err
    requires m' == if op != RPAR then PushOp(m1, op).(unary := true)
                   else if m1.ops == [] then m1.(err := true, unary := false)
                   else DropOp(m1).(err := m1.err || TopOp(m1) != LPAR, unary := false)
    ensures !m1.err && (op != RPAR ==> m'.ops == m1.ops + [op] && m'.vals == m1.vals)
    ensures op == RPAR ==> m1.ops != [] && TopOp(m1) == LPAR && m'.ops == m1.ops[..|m1.ops| - 1] && m'.vals == m1.vals
  {
  }

  lemma CloseBalance(m1: Machine, m': Machine)
    requires m1.ops != [] && TopOp(m1) == LPAR && m'.ops == m1.ops[..|m1.ops| - 1] && m'.vals == m1.vals
    ensures Binaries(m'.ops) == Binaries(m1.ops)
  {
    BinariesOn(m'.ops, LPAR);
    assert m1.ops == m'.ops + [LPAR];
  }

  lemma StaysWrong(mean: Meaning, m: Machine, op: Op)
    requires m.err
    ensures Enter(mean, m, op).err
  {
    ReduceKeepsError(mean, m, Prio(op));
  }

  // A field is accepted if and only if no step fails and the operands match: one is missing at the end for a unary
  // operator after an operand, or neither occurs.
  lemma AcceptsExact(mean: Meaning, ts: seq<Token>)
    ensures !Failed(Scanned(mean, ts)) <==>
      !Scanned(mean, ts).err && Infixes(ts) == if Open(ts) then 1 else 0
  {
    var m := Run(mean, START, ts);
    DrainIsReduce(mean, m);
    if !Scanned(mean, ts).err {
      ReduceBalance(mean, m, 0);
      Balance(mean, ts);
    }
  }

  // --- the tree of an accepted field

  // An operator that waits for its right operand, with what was read before it: its left operand, or signs.
  datatype Frame = Group(signs: nat) | Prefix(signs: nat, op: Op) | Middle(left: Expr, op: Op)

  function OpOf(f: Frame): Op {
    match f case Group(_) => LPAR case Prefix(_, op) => op case Middle(_, op) => op
  }

  // The last frame is on top.
  datatype Frames = Bottom | On(below: Frames, top: Frame)

  function OpsOf(fs: Frames): seq<Op> {
    match fs case Bottom => [] case On(below, f) => OpsOf(below) + [OpOf(f)]
  }

  lemma OpsTop(fs: Frames)
    ensures OpsOf(fs) == [] <==> fs.Bottom?
    ensures fs.On? ==> OpsOf(fs)[|OpsOf(fs)| - 1] == OpOf(fs.top) && OpsOf(fs)[..|OpsOf(fs)| - 1] == OpsOf(fs.below)
  {
  }

  function Signs(n: nat): seq<Token> { seq(n, i => Oper(ADD)) }

  function Signed(n: nat, e: Expr): (r: Expr)
    ensures Level(r) == Level(e) && (InGrammar(e) ==> InGrammar(r))
  {
    if n == 0 then e else Plus(Signed(n - 1, e))
  }

  function TokenOf(op: Op): Token { Oper(if op == NEG then SUB else op) }

  function TextOf(f: Frame): seq<Token> {
    match f
    case Group(n) => Signs(n) + [Oper(LPAR)]
    case Prefix(n, op) => Signs(n) + [TokenOf(op)]
    case Middle(l, op) => Tokens(l) + [Oper(op)]
  }

  function Text(fs: Frames): seq<Token> {
    match fs case Bottom => [] case On(below, f) => Text(below) + TextOf(f)
  }

  ghost predicate FrameOk(f: Frame) {
    match f
    case Group(_) => true
    case Prefix(_, op) => IsUnary(op)
    case Middle(l, op) => IsBinary(op) && InGrammar(l) && Level(l) >= Prio(op)
  }

  // Every frame but a parenthesis binds more tightly than the one before it.
  ghost predicate Rising(fs: Frames) {
    match fs
    case Bottom => true
    case On(below, f) => Rising(below) && FrameOk(f) && (f.Group? || Under(below, Prio(OpOf(f))))
  }

  // What is of this level can stand to the right of the last frame.
  ghost predicate Under(fs: Frames, level: int) { fs.Bottom? || Prio(OpOf(fs.top)) < level }

  // The field read so far: waiting for an operand after some signs.
  ghost predicate Waiting(m: Machine, ts: seq<Token>, fs: Frames, signs: nat) {
    && m.unary && Rising(fs) && m.ops == OpsOf(fs) && ts == Text(fs) + Signs(signs)
    && Before(ts) == if fs.Bottom? then 0 else Prio(OpOf(fs.top))
  }

  // Or with an operand read.
  ghost predicate Holding(m: Machine, ts: seq<Token>, fs: Frames, e: Expr) {
    && !m.unary && Rising(fs) && m.ops == OpsOf(fs) && ts == Text(fs) + Tokens(e) && InGrammar(e) && Level(e) == 100
  }

  ghost predicate Parsed(m: Machine, ts: seq<Token>) {
    forall x {:trigger Unfold(x)} :: Unfold(x) ==>
      if m.unary then exists fs, signs :: Waiting(m, ts, fs, signs) else exists fs, e :: Holding(m, ts, fs, e)
  }

  lemma {:induction false} SignedText(n: nat, e: Expr)
    ensures Tokens(Signed(n, e)) == Signs(n) + Tokens(e)
  {
    if n > 0 {
      SignedText(n - 1, e);
      assert Signs(n) == [Oper(ADD)] + Signs(n - 1);
    }
  }

  // An operand completes the last frame.
  function Completed(f: Frame, e: Expr): Expr
    requires !f.Group?
  {
    match f
    case Prefix(n, op) => Signed(n, Un(op, e))
    case Middle(l, op) => Bin(op, l, e)
  }

  lemma CompletedText(f: Frame, e: Expr)
    requires !f.Group? && FrameOk(f) && InGrammar(e) && Prio(OpOf(f)) < Level(e)
    ensures Tokens(Completed(f, e)) == TextOf(f) + Tokens(e) && InGrammar(Completed(f, e))
    ensures Level(Completed(f, e)) == Prio(OpOf(f))
  {
    if f.Prefix? {
      SignedText(f.signs, Un(f.op, e));
    }
  }

  // Reducing builds trees.
  lemma {:induction false} ReduceTree(mean: Meaning, m: Machine, fs: Frames, e: Expr, p: int)
      returns (gs: Frames, t: Expr)
    requires !Reduce(mean, m, p).err && m.ops == OpsOf(fs) && Rising(fs) && InGrammar(e)
    requires Under(fs, Level(e)) && p <= Level(e)
    ensures Reduce(mean, m, p).ops == OpsOf(gs) && Rising(gs) && InGrammar(t) && Under(gs, Level(t)) && p <= Level(t)
    ensures Text(gs) + Tokens(t) == Text(fs) + Tokens(e) && Under(gs, p)
    decreases fs
  {
    gs, t := fs, e;
    OpsTop(fs);
    ReduceStep(mean, m, p);
    if m.ops != [] && Prio(TopOp(m)) >= p {
      var m1 := Apply(mean, DropOp(m), TopOp(m));
      ReduceBalance(mean, m1, p);
      ApplyBalance(mean, m);
      CompletedText(fs.top, e);
      gs, t := ReduceTree(mean, m1, fs.below, Completed(fs.top, e), p);
    }
  }

  // One more item.
  lemma OperandParsed(mean: Meaning, m: Machine, ts: seq<Token>, v: word, fs: Frames, signs: nat, m': Machine)
    requires Waiting(m, ts, fs, signs) && !m.err && m' == Step(mean, m, Operand(v)) && !m'.err
    ensures Parsed(m', ts + [Operand(v)])
  {
    SignedText(signs, Num(v));
    SameText(Text(fs), Signs(signs), [], [Operand(v)]);
    assert Holding(m', ts + [Operand(v)], fs, Signed(signs, Num(v)));
  }

  lemma PrefixParsed(m: Machine, ts: seq<Token>, fs: Frames, signs: nat, f: Frame, m': Machine)
    requires ts != [] && Waiting(m, Front(ts), fs, signs) && Last(ts).Oper? && Last(ts) != Oper(ADD)
    requires FrameOk(f) && TextOf(f) == Signs(signs) + [Last(ts)] && Prio(OpOf(f)) == Prio(Last(ts).op)
    requires !f.Group? ==> Under(fs, Prio(OpOf(f)))
    requires m'.unary && m'.ops == m.ops + [OpOf(f)]
    ensures Parsed(m', ts)
  {
    assert ts == Front(ts) + [Last(ts)];
    assert ts == Text(On(fs, f)) + Signs(0);
    assert Waiting(m', ts, On(fs, f), 0);
  }

  lemma SignParsed(mean: Meaning, m: Machine, ts: seq<Token>, fs: Frames, signs: nat)
    requires ts != [] && Last(ts) == Oper(ADD) && Waiting(m, Front(ts), fs, signs) && !m.err && Open(Front(ts))
    ensures Parsed(Step(mean, m, Last(ts)), ts)
  {
    assert ts == Front(ts) + [Last(ts)];
    assert Signs(signs + 1) == Signs(signs) + [Oper(ADD)];
    assert Waiting(m, ts, fs, signs + 1);
  }

  // A sign or NOT where an operand is expected reduces nothing.
  lemma UnaryParsed(mean: Meaning, m: Machine, ts: seq<Token>, fs: Frames, signs: nat, op: Op)
    requires ts != [] && Last(ts) == TokenOf(op) && IsUnary(op) && Waiting(m, Front(ts), fs, signs) && !m.err
    requires Open(Front(ts)) && Binds(ts) && !Step(mean, m, Last(ts)).err
    ensures Parsed(Step(mean, m, Last(ts)), ts)
  {
    OpsTop(fs);
    assert Under(fs, Prio(op));
    ReduceStep(mean, m, Prio(op));
    assert Step(mean, m, Last(ts)) == Enter(mean, m, op);
    PrefixParsed(m, ts, fs, signs, Prefix(signs, op), Step(mean, m, Last(ts)));
  }

  lemma WaitingParsed(mean: Meaning, m: Machine, ts: seq<Token>)
    requires ts != [] && !m.err && m.unary && Parsed(m, Front(ts)) && Open(Front(ts)) && Binds(ts)
    requires !Step(mean, m, Last(ts)).err
    ensures Parsed(Step(mean, m, Last(ts)), ts)
  {
    assert Unfold(0);
    var fs, signs :| Waiting(m, Front(ts), fs, signs);
    ItemParsed(mean, m, ts, fs, signs);
  }

  lemma ItemParsed(mean: Meaning, m: Machine, ts: seq<Token>, fs: Frames, signs: nat)
    requires ts != [] && !m.err && Waiting(m, Front(ts), fs, signs) && Open(Front(ts)) && Binds(ts)
    requires !Step(mean, m, Last(ts)).err
    ensures Parsed(Step(mean, m, Last(ts)), ts)
  {
    match Last(ts)
    case Operand(v) =>
      OperandParsed(mean, m, Front(ts), v, fs, signs, Step(mean, m, Last(ts)));
      assert ts == Front(ts) + [Last(ts)];
    case Oper(op) =>
      if op == LPAR {
        PrefixParsed(m, ts, fs, signs, Group(signs), Step(mean, m, Last(ts)));
      } else if op == ADD {
        SignParsed(mean, m, ts, fs, signs);
      } else if op == SUB {
        UnaryParsed(mean, m, ts, fs, signs, NEG);
      } else if op == NOT {
        UnaryParsed(mean, m, ts, fs, signs, NOT);
      } else {
        StaysWrong(mean, m.(err := true), op);
      }
  }

  lemma HoldingParsed(mean: Meaning, m: Machine, ts: seq<Token>, t: Token, m': Machine)
    requires !m.err && !m.unary && Parsed(m, ts) && !Open(ts) && !UnaryToken(t)
    requires m' == Step(mean, m, t) && !m'.err
    ensures Parsed(m', ts + [t])
  {
    assert Unfold(0);
    var fs, e :| Holding(m, ts, fs, e);
    StepIsEnter(mean, m, t);
    EnterParsed(mean, m, ts, fs, e, t.op, m');
  }

  lemma StepIsEnter(mean: Meaning, m: Machine, t: Token)
    requires !m.err && !m.unary && !UnaryToken(t) && !Step(mean, m, t).err
    ensures t.Oper? && (IsBinary(t.op) || t.op == RPAR) && Step(mean, m, t) == Enter(mean, m, t.op)
  {
  }

  // A binary operator or a closing parenthesis after an operand.
  lemma EnterParsed(mean: Meaning, m: Machine, ts: seq<Token>, fs: Frames, e: Expr, op: Op, m': Machine)
    requires Holding(m, ts, fs, e) && !Open(ts) && (IsBinary(op) || op == RPAR)
    requires m' == Enter(mean, m, op) && !m'.err
    ensures Parsed(m', ts + [Oper(op)])
  {
    var m1 := Reduce(mean, m, Prio(op));
    FramesLow(fs);
    var gs, t := ReduceTree(mean, m, fs, e, Prio(op));
    if op == RPAR {
      CloseParsed(m1, m', ts + [Oper(op)], gs, t);
    } else {
      MiddleParsed(m1, m', ts + [Oper(op)], gs, t, op);
    }
  }

  lemma FramesLow(fs: Frames)
    ensures Under(fs, 100)
  {
  }

  lemma MiddleParsed(m1: Machine, m': Machine, ts: seq<Token>, gs: Frames, t: Expr, op: Op)
    requires IsBinary(op) && m' == PushOp(m1, op).(unary := true) && !m'.err && m1.ops == OpsOf(gs)
    requires Rising(gs) && InGrammar(t) && Prio(op) <= Level(t) && Under(gs, Prio(op))
    requires ts == Text(gs) + Tokens(t) + [Oper(op)] && ts != [] && !(op == ADD && Open(Front(ts)))
    ensures Parsed(m', ts)
  {
    var fs := On(gs, Middle(t, op));
    assert ts == Text(fs) + Signs(0);
    assert Waiting(m', ts, fs, 0);
  }

  lemma CloseParsed(m1: Machine, m': Machine, ts: seq<Token>, gs: Frames, t: Expr)
    requires m1.ops == OpsOf(gs) && Rising(gs) && InGrammar(t) && Under(gs, Prio(RPAR))
    requires m1.ops != [] && m' == DropOp(m1).(err := m1.err || TopOp(m1) != LPAR, unary := false) && !m'.err
    requires ts == Text(gs) + Tokens(t) + [Oper(RPAR)]
    ensures Parsed(m', ts)
  {
    OpsTop(gs);
    var n := gs.top.signs;
    SignedText(n, Paren(t));
    CloseText(Text(gs.below), n, t);
    assert Holding(m', ts, gs.below, Signed(n, Paren(t)));
  }

  lemma CloseText(below: seq<Token>, n: nat, t: Expr)
    ensures below + (Signs(n) + [Oper(LPAR)]) + Tokens(t) + [Oper(RPAR)] == below + (Signs(n) + Tokens(Paren(t)))
  {
  }

  lemma {:induction false} RunParsed(mean: Meaning, ts: seq<Token>)
    requires !Run(mean, START, ts).err && Infixes(ts) == 0 && AllBind(ts)
    ensures Parsed(Run(mean, START, ts), ts)
    decreases |ts|
  {
    if ts == [] {
      assert Signs(0) == [];
      assert Waiting(START, ts, Bottom, 0);
    } else {
      RunLast(mean, ts);
      RunParsed(mean, Front(ts));
      Balance(mean, Front(ts));
      NextParsed(mean, Run(mean, START, Front(ts)), ts);
    }
  }

  lemma NextParsed(mean: Meaning, m: Machine, ts: seq<Token>)
    requires ts != [] && !m.err && Parsed(m, Front(ts)) && m.unary == Open(Front(ts)) && !Step(mean, m, Last(ts)).err
    requires Binds(ts) && (UnaryToken(Last(ts)) ==> Open(Front(ts)))
    ensures Parsed(Step(mean, m, Last(ts)), ts)
  {
    if m.unary {
      WaitingParsed(mean, m, ts);
    } else {
      HoldingParsed(mean, m, Front(ts), Last(ts), Step(mean, m, Last(ts)));
      assert ts == Front(ts) + [Last(ts)];
    }
  }

  // The field is the text of an expression that has a value.
  ghost predicate IsText(mean: Meaning, ts: seq<Token>, e: Expr) {
    InGrammar(e) && Tokens(e) == ts && Meant(mean, e) != Refused
  }

  lemma AcceptedHasTree(mean: Meaning, ts: seq<Token>) returns (e: Expr)
    requires !Failed(Scanned(mean, ts)) && Infixes(ts) == 0 && AllBind(ts)
    ensures IsText(mean, ts, e)
  {
    var m := Run(mean, START, ts);
    AcceptsExact(mean, ts);
    DrainIsReduce(mean, m);
    ReduceBalance(mean, m, 0);
    Balance(mean, ts);
    RunParsed(mean, ts);
    assert Unfold(0);
    var fs, e0 :| Holding(m, ts, fs, e0);
    FramesLow(fs);
    var gs, t := ReduceTree(mean, m, fs, e0, 0);
    OpsTop(gs);
    e := t;
    OpandIsEval(mean, e);
  }

  // --- the texts of expressions

  // No unary operator follows an operand, and each one binds more tightly than the operator before it.
  ghost predicate Regular(ts: seq<Token>) {
    forall x {:trigger Unfold(x)} :: Unfold(x) ==> Infixes(ts) == 0 && AllBind(ts)
  }

  // One more item, in its place.
  lemma RegularOn(ts: seq<Token>, t: Token)
    requires Regular(ts) && (UnaryToken(t) ==> Open(ts))
    requires t in {Oper(SUB), Oper(NOT)} && Open(ts) ==> Before(ts) < Prio(t.op)
    ensures Regular(ts + [t]) && Open(ts + [t]) == (t.Oper? && t.op != RPAR)
    ensures Before(ts + [t]) ==
      if t == Oper(ADD) && Open(ts) then Before(ts) else if t.Oper? then Prio(t.op) else 0
  {
    assert Unfold(0);
    assert Last(ts + [t]) == t && Front(ts + [t]) == ts;
  }

  // The text of an expression after items that wait for it.
  lemma {:induction false} TextRegular(e: Expr, ts: seq<Token>)
    requires InGrammar(e) && Open(ts) && Regular(ts) && Before(ts) < Level(e)
    ensures Regular(ts + Tokens(e)) && !Open(ts + Tokens(e))
    decreases e, 1
  {
    match e
    case Num(v) => RegularOn(ts, Operand(v));
    case Plus(e1) => AfterPrefix(e1, ts, Oper(ADD));
    case Un(op, e1) => AfterPrefix(e1, ts, TokenOf(op));
    case Paren(e1) => ParenRegular(e1, ts);
    case Bin(op, l, r) =>
      TextRegular(l, ts);
      AfterLeft(r, ts + Tokens(l), op);
      SameText(ts, Tokens(l), [Oper(op)], Tokens(r));
  }

  lemma SameText(a: seq<Token>, b: seq<Token>, c: seq<Token>, d: seq<Token>)
    ensures a + (b + c + d) == a + b + (c + d) == a + (b + c) + d
  {
  }

  lemma {:induction false} ParenRegular(e: Expr, ts: seq<Token>)
    requires InGrammar(e) && Open(ts) && Regular(ts)
    ensures var all := ts + ([Oper(LPAR)] + Tokens(e) + [Oper(RPAR)]); Regular(all) && !Open(all)
    decreases e, 3
  {
    LevelAbove(e);
    AfterPrefix(e, ts, Oper(LPAR));
    RegularOn(ts + ([Oper(LPAR)] + Tokens(e)), Oper(RPAR));
    SameText(ts, [Oper(LPAR)], Tokens(e), [Oper(RPAR)]);
  }

  lemma {:induction false} AfterPrefix(e: Expr, ts: seq<Token>, t: Token)
    requires InGrammar(e) && Open(ts) && Regular(ts) && t in {Oper(ADD), Oper(SUB), Oper(NOT), Oper(LPAR)}
    requires if t == Oper(ADD) then Before(ts) < Level(e) else Prio(t.op) < Level(e)
    requires t in {Oper(SUB), Oper(NOT)} ==> Before(ts) < Prio(t.op)
    ensures Regular(ts + ([t] + Tokens(e))) && !Open(ts + ([t] + Tokens(e)))
    decreases e, 2
  {
    RegularOn(ts, t);
    TextRegular(e, ts + [t]);
    assert ts + ([t] + Tokens(e)) == ts + [t] + Tokens(e);
  }

  lemma {:induction false} AfterLeft(e: Expr, ts: seq<Token>, op: Op)
    requires InGrammar(e) && !Open(ts) && Regular(ts) && IsBinary(op) && Prio(op) < Level(e)
    ensures Regular(ts + ([Oper(op)] + Tokens(e))) && !Open(ts + ([Oper(op)] + Tokens(e)))
    decreases e, 2
  {
    RegularOn(ts, Oper(op));
    TextRegular(e, ts + [Oper(op)]);
    assert ts + ([Oper(op)] + Tokens(e)) == ts + [Oper(op)] + Tokens(e);
  }

  // The texts of expressions that have a value are exactly the accepted fields in which no unary operator follows an
  // operand and each one binds more tightly than the operator before it; and that value is the field's.
  lemma AcceptedTexts(mean: Meaning, ts: seq<Token>)
    ensures (exists e :: IsText(mean, ts, e)) <==> !Failed(Scanned(mean, ts)) && Infixes(ts) == 0 && AllBind(ts)
    ensures forall e :: IsText(mean, ts, e) ==> Opand(mean, ts) == Meant(mean, e).v
  {
    assert Unfold(0);
    forall e | IsText(mean, ts, e)
      ensures !Failed(Scanned(mean, ts)) && Regular(ts) && Opand(mean, ts) == Meant(mean, e).v
    {
      OpandIsEval(mean, e);
      LevelAbove(e);
      TextRegular(e, []);
      assert [] + Tokens(e) == ts;
    }
    if !Failed(Scanned(mean, ts)) && Regular(ts) {
      var e := AcceptedHasTree(mean, ts);
    }
  }

  // --- accepted, but not the text of an expression

  lemma RunNext(mean: Meaning, m: Machine, t: Token, ts: seq<Token>)
    ensures Run(mean, m, [t] + ts) == Run(mean, Step(mean, m, t), ts)
  {
    assert ([t] + ts)[1..] == ts;
  }

  // An operator that meets no pending one of its priority or more is stacked.
  lemma StackedOnly(mean: Meaning, m: Machine, op: Op)
    requires op != RPAR && |m.ops| < OPERATORS && (m.ops == [] || Prio(TopOp(m)) < Prio(op))
    ensures Enter(mean, m, op) == m.(ops := m.ops + [op], unary := true)
  {
    ReduceStep(mean, m, Prio(op));
  }

  lemma StepOperand(mean: Meaning, m: Machine, v: word)
    requires !m.err && m.unary && |m.vals| < VALUES
    ensures Step(mean, m, Operand(v)) == m.(vals := m.vals + [v], unary := false)
  {
  }

  // What the field comes to, from the machine at its end.
  lemma Accepted(mean: Meaning, ts: seq<Token>, m: Machine, v: word, u: bool)
    requires Run(mean, START, ts) == m && Drain(mean, m) == Machine([v], [], u, false)
    ensures !Failed(Scanned(mean, ts)) && Opand(mean, ts) == v
  {
  }

  // "5 NOT" is taken for NOT 5.
  lemma TrailingNot(mean: Meaning, ts: seq<Token>, a: word)
    requires ts == [Operand(a)] + [Oper(NOT)]
    ensures !Failed(Scanned(mean, ts)) && Opand(mean, ts) == mean.un(NOT, a)
  {
    var m := OperandThenNot(mean, START, ts, a, []);
    DrainUnary(mean, [], a, NOT, []);
    assert [] + [a] == [a] && [] + [NOT] == [NOT] && [] + [mean.un(NOT, a)] == [mean.un(NOT, a)];
    Accepted(mean, ts, m, mean.un(NOT, a), true);
  }

  // An operand and NOT at the start of a field.
  lemma OperandThenNot(mean: Meaning, m0: Machine, ts: seq<Token>, a: word, rest: seq<Token>) returns (m: Machine)
    requires m0 == START && ts == [Operand(a)] + ([Oper(NOT)] + rest)
    ensures m == Machine([a], [NOT], true, false) && Run(mean, m0, ts) == Run(mean, m, rest)
  {
    RunNext(mean, m0, Operand(a), [Oper(NOT)] + rest);
    StepOperand(mean, m0, a);
    var m1 := Step(mean, m0, Operand(a));
    RunNext(mean, m1, Oper(NOT), rest);
    StackedOnly(mean, m1, NOT);
    m := Step(mean, m1, Oper(NOT));
  }

  // The last steps: a unary and a binary operator.
  lemma DrainUnary(mean: Meaning, vs: seq<word>, a: word, op: Op, ops: seq<Op>)
    requires IsUnary(op) && |vs| < VALUES
    ensures forall u :: Drain(mean, Machine(vs + [a], ops + [op], u, false))
                     == Drain(mean, Machine(vs + [mean.un(op, a)], ops, u, false))
  {
    forall u: bool
      ensures Drain(mean, Machine(vs + [a], ops + [op], u, false))
           == Drain(mean, Machine(vs + [mean.un(op, a)], ops, u, false))
    {
      var m := Machine(vs + [a], ops + [op], u, false);
      assert m.ops[..|m.ops| - 1] == ops && m.vals[..|m.vals| - 1] == vs;
      assert Apply(mean, DropOp(m), op) == Machine(vs + [mean.un(op, a)], ops, u, false);
    }
  }

  lemma ApplyPair(mean: Meaning, m: Machine, a: word, b: word, op: Op)
    requires IsBinary(op) && m.vals == [a, b] && !m.err && !mean.refuse(op, b)
    ensures Apply(mean, m, op) == m.(vals := [mean.bin(op, a, b)])
  {
    ApplyEnough(mean, m, op);
    assert m.vals[..0] + [mean.bin(op, a, b)] == [mean.bin(op, a, b)];
  }

  lemma DrainPair(mean: Meaning, a: word, b: word, op: Op, u: bool)
    requires IsBinary(op) && !mean.refuse(op, b)
    ensures Drain(mean, Machine([a, b], [op], u, false)) == Machine([mean.bin(op, a, b)], [], u, false)
  {
    var m := Machine([a, b], [op], u, false);
    assert m.ops[..0] == [];
    ApplyPair(mean, DropOp(m), a, b, op);
  }

  // "5 NOT 6 AND" is taken for 5 AND NOT 6: the operand missing at the end is the one left over in the middle.
  lemma NotInTheMiddle(mean: Meaning, ts: seq<Token>, a: word, b: word)
    requires ts == [Operand(a)] + ([Oper(NOT)] + ([Operand(b)] + [Oper(AND)])) && !mean.refuse(AND, mean.un(NOT, b))
    ensures !Failed(Scanned(mean, ts)) && Opand(mean, ts) == mean.bin(AND, a, mean.un(NOT, b))
  {
    var m := OperandThenNot(mean, START, ts, a, [Operand(b)] + [Oper(AND)]);
    RunNext(mean, m, Operand(b), [Oper(AND)]);
    StepOperand(mean, m, b);
    var m1 := Step(mean, m, Operand(b));
    RunOne(mean, m1, Oper(AND));
    assert m1.vals == [a, b];
    ReduceUnary(mean, a, b);
    DrainPair(mean, a, mean.un(NOT, b), AND, true);
    Accepted(mean, ts, Step(mean, m1, Oper(AND)), mean.bin(AND, a, mean.un(NOT, b)), true);
  }

  lemma ReduceUnary(mean: Meaning, a: word, b: word)
    ensures Step(mean, Machine([a, b], [NOT], false, false), Oper(AND))
         == Machine([a, mean.un(NOT, b)], [AND], true, false)
  {
    var m := Machine([a, b], [NOT], false, false);
    ReduceStep(mean, m, Prio(AND));
    assert m.ops[..0] == [] && m.vals[..1] == [a];
    assert Apply(mean, DropOp(m), NOT) == Machine([a, mean.un(NOT, b)], [], false, false);
    ReduceStep(mean, Machine([a, mean.un(NOT, b)], [], false, false), Prio(AND));
  }

  // "1 AND 2 * -3" is taken for (1 * 2) AND -3: the sign binds no more tightly than the product.
  lemma SignAfterProduct(mean: Meaning, ts: seq<Token>, a: word, b: word, c: word)
    requires ts == [Operand(a)] + ([Oper(AND)] + ([Operand(b)] + ([Oper(MUL)] + ([Oper(SUB)] + [Operand(c)]))))
    requires !mean.refuse(MUL, b) && !mean.refuse(AND, mean.un(NEG, c))
    ensures !Failed(Scanned(mean, ts)) && Opand(mean, ts) == mean.bin(AND, mean.bin(MUL, a, b), mean.un(NEG, c))
  {
    var t2 := [Oper(SUB)] + [Operand(c)];
    var m2 := TwoOperands(mean, START, a, b, t2);
    SignReduces(mean, a, b, c);
    Accepted(mean, ts, Run(mean, m2, t2), mean.bin(AND, mean.bin(MUL, a, b), mean.un(NEG, c)), false);
  }

  lemma TwoOperands(mean: Meaning, m0: Machine, a: word, b: word, rest: seq<Token>) returns (m: Machine)
    requires m0 == START
    ensures m == Machine([a, b], [AND, MUL], true, false)
    ensures Run(mean, m0, [Operand(a)] + ([Oper(AND)] + ([Operand(b)] + ([Oper(MUL)] + rest)))) == Run(mean, m, rest)
  {
    var m1 := OperandThenBinary(mean, m0, a, AND, [Operand(b)] + ([Oper(MUL)] + rest));
    m := OperandThenBinary(mean, m1, b, MUL, rest);
  }

  lemma OperandThenBinary(mean: Meaning, m0: Machine, a: word, op: Op, rest: seq<Token>) returns (m: Machine)
    requires !m0.err && m0.unary && |m0.vals| < VALUES && |m0.ops| < OPERATORS && IsBinary(op)
    requires m0.ops == [] || Prio(TopOp(m0)) < Prio(op)
    ensures m == Machine(m0.vals + [a], m0.ops + [op], true, false)
    ensures Run(mean, m0, [Operand(a)] + ([Oper(op)] + rest)) == Run(mean, m, rest)
  {
    RunNext(mean, m0, Operand(a), [Oper(op)] + rest);
    StepOperand(mean, m0, a);
    var m1 := Step(mean, m0, Operand(a));
    RunNext(mean, m1, Oper(op), rest);
    StackedOnly(mean, m1, op);
    m := Step(mean, m1, Oper(op));
  }

  lemma SignEnters(mean: Meaning, m: Machine, a: word, b: word)
    requires m == Machine([a, b], [AND, MUL], true, false) && !mean.refuse(MUL, b)
    ensures Step(mean, m, Oper(SUB)) == Machine([mean.bin(MUL, a, b)], [AND, NEG], true, false)
  {
    ReduceProduct(mean, m, a, b, Prio(NEG));
    SignStep(mean, m);
    assert [AND] + [NEG] == [AND, NEG];
  }

  lemma SignStep(mean: Meaning, m: Machine)
    requires !m.err && m.unary
    ensures Step(mean, m, Oper(SUB)) == PushOp(Reduce(mean, m, Prio(NEG)), NEG).(unary := true)
  {
  }

  lemma ReduceProduct(mean: Meaning, m: Machine, a: word, b: word, p: int)
    requires m == Machine([a, b], [AND, MUL], true, false) && !mean.refuse(MUL, b) && p == Prio(NEG)
    ensures Reduce(mean, m, p) == Machine([mean.bin(MUL, a, b)], [AND], true, false)
  {
    ReduceStep(mean, m, p);
    assert m.ops[..1] == [AND];
    ApplyPair(mean, DropOp(m), a, b, MUL);
    ReduceStep(mean, Machine([mean.bin(MUL, a, b)], [AND], true, false), p);
  }

  lemma SignReduces(mean: Meaning, a: word, b: word, c: word)
    requires !mean.refuse(MUL, b) && !mean.refuse(AND, mean.un(NEG, c))
    ensures Drain(mean, Run(mean, Machine([a, b], [AND, MUL], true, false), [Oper(SUB)] + [Operand(c)]))
         == Machine([mean.bin(AND, mean.bin(MUL, a, b), mean.un(NEG, c))], [], false, false)
  {
    var m, p := Machine([a, b], [AND, MUL], true, false), mean.bin(MUL, a, b);
    SignEnters(mean, m, a, b);
    var m2 := Step(mean, m, Oper(SUB));
    RunNext(mean, m, Oper(SUB), [Operand(c)]);
    RunOne(mean, m2, Operand(c));
    StepOperand(mean, m2, c);
    assert [p] + [c] == [p, c] && [AND] + [NEG] == [AND, NEG] && [p] + [mean.un(NEG, c)] == [p, mean.un(NEG, c)];
    DrainUnary(mean, [p], c, NEG, [AND]);
    DrainPair(mean, p, mean.un(NEG, c), AND, false);
  }

  // --- what binds more tightly

  // Products and shifts before sums, sums before NOT, NOT before AND, AND before OR and XOR.
  predicate Tighter(op: Op, than: Op) {
    || (op in {MUL, DIV, MOD, SHL, SHR} && than in {ADD, SUB, NEG, NOT, AND, OR, XOR})
    || (op in {ADD, SUB, NEG} && than in {NOT, AND, OR, XOR})
    || (op == NOT && than in {AND, OR, XOR})
    || (op == AND && than in {OR, XOR})
  }

  lemma TighterIs(op: Op, than: Op)
    requires (IsBinary(op) || IsUnary(op)) && (IsBinary(than) || IsUnary(than))
    ensures Tighter(op, than) <==> Prio(op) > Prio(than)
  {
  }

  // The field yields the value, or an error and zero.
  ghost predicate Yielded(ts: seq<Token>, value: Value) {
    && (Failed(Scanned(ASSEMBLER, ts)) <==> value == Refused)
    && Opand(ASSEMBLER, ts) == match value case Val(v) => v case Refused => 0
  }

  function Apply2(op: Op, a: Value, b: Value): Value { BinaryValue(ASSEMBLER, op, a, b) }

  lemma YieldsTree(ts: seq<Token>, e: Expr)
    requires InGrammar(e) && FitsStacks(e) && Tokens(e) == ts
    ensures Yielded(ts, Eval(ASSEMBLER, e))
  {
    OpandIsEval(ASSEMBLER, e);
  }

  // A small tree: its text, its value, and that it fits.
  ghost predicate Small(e: Expr, ts: seq<Token>, value: Value, vs: int, os: int) {
    && InGrammar(e) && Tokens(e) == ts && Eval(ASSEMBLER, e) == value
    && ValueDepth(e) <= vs && OperatorDepth(e) <= os
  }

  lemma SmallNum(a: word)
    ensures Small(Num(a), [Operand(a)], Val(a), 1, 0)
  {
  }

  lemma SmallBin(op: Op, l: Expr, ls: seq<Token>, a: Value, r: Expr, rs: seq<Token>, b: Value, n: int)
    requires IsBinary(op) && Small(l, ls, a, n, n) && Small(r, rs, b, n, n)
    requires Level(l) >= Prio(op) && Level(r) > Prio(op)
    ensures Small(Bin(op, l, r), ls + [Oper(op)] + rs, Apply2(op, a, b), n + 1, n + 1)
  {
  }

  lemma SmallUn(op: Op, e: Expr, ts: seq<Token>, a: Value, n: int)
    requires IsUnary(op) && Small(e, ts, a, n, n) && Level(e) > Prio(op)
    ensures Small(Un(op, e), [TokenOf(op)] + ts, UnaryValue(ASSEMBLER, op, a), n + 1, n + 1)
  {
  }

  lemma SmallYields(e: Expr, ts: seq<Token>, value: Value, us: seq<Token>)
    requires Small(e, ts, value, 8, 8) && us == ts
    ensures Yielded(us, value)
  {
    YieldsTree(us, e);
  }

  // "a p b q c": the second operator takes b if it binds more tightly, and else what the first one yields.
  lemma TwoOperators(ts: seq<Token>, a: word, p: Op, b: word, q: Op, c: word)
    requires IsBinary(p) && IsBinary(q) && ts == [Operand(a), Oper(p), Operand(b), Oper(q), Operand(c)]
    ensures Yielded(ts, if Tighter(q, p) then Apply2(p, Val(a), Apply2(q, Val(b), Val(c)))
                        else Apply2(q, Apply2(p, Val(a), Val(b)), Val(c)))
  {
    TighterIs(q, p);
    SmallNum(a);
    SmallNum(b);
    SmallNum(c);
    if Tighter(q, p) {
      SmallBin(q, Num(b), [Operand(b)], Val(b), Num(c), [Operand(c)], Val(c), 1);
      var ys := [Operand(b)] + [Oper(q)] + [Operand(c)];
      var y := Apply2(q, Val(b), Val(c));
      SmallBin(p, Num(a), [Operand(a)], Val(a), Bin(q, Num(b), Num(c)), ys, y, 2);
      SmallYields(Bin(p, Num(a), Bin(q, Num(b), Num(c))), [Operand(a)] + [Oper(p)] + ys, Apply2(p, Val(a), y), ts);
    } else {
      SmallBin(p, Num(a), [Operand(a)], Val(a), Num(b), [Operand(b)], Val(b), 1);
      var ys := [Operand(a)] + [Oper(p)] + [Operand(b)];
      var y := Apply2(p, Val(a), Val(b));
      SmallBin(q, Bin(p, Num(a), Num(b)), ys, y, Num(c), [Operand(c)], Val(c), 2);
      SmallYields(Bin(q, Bin(p, Num(a), Num(b)), Num(c)), ys + [Oper(q)] + [Operand(c)], Apply2(q, y, Val(c)), ts);
    }
  }

  // "-a q b" and "NOT a q b": the operator takes a if it binds more tightly than the sign or NOT.
  lemma SignAndOperator(ts: seq<Token>, p: Op, a: word, q: Op, b: word)
    requires IsUnary(p) && IsBinary(q) && ts == [TokenOf(p), Operand(a), Oper(q), Operand(b)]
    ensures Yielded(ts, if Tighter(q, p) then UnaryValue(ASSEMBLER, p, Apply2(q, Val(a), Val(b)))
                        else Apply2(q, UnaryValue(ASSEMBLER, p, Val(a)), Val(b)))
  {
    TighterIs(q, p);
    SmallNum(a);
    SmallNum(b);
    if Tighter(q, p) {
      SmallBin(q, Num(a), [Operand(a)], Val(a), Num(b), [Operand(b)], Val(b), 1);
      var ys := [Operand(a)] + [Oper(q)] + [Operand(b)];
      var y := Apply2(q, Val(a), Val(b));
      SmallUn(p, Bin(q, Num(a), Num(b)), ys, y, 2);
      SmallYields(Un(p, Bin(q, Num(a), Num(b))), [TokenOf(p)] + ys, UnaryValue(ASSEMBLER, p, y), ts);
    } else {
      SmallUn(p, Num(a), [Operand(a)], Val(a), 1);
      var ys := [TokenOf(p)] + [Operand(a)];
      var y := UnaryValue(ASSEMBLER, p, Val(a));
      SmallBin(q, Un(p, Num(a)), ys, y, Num(b), [Operand(b)], Val(b), 2);
      SmallYields(Bin(q, Un(p, Num(a)), Num(b)), ys + [Oper(q)] + [Operand(b)], Apply2(q, y, Val(b)), ts);
    }
  }

  // So AND comes before OR.
  lemma AndBeforeOr(ts: seq<Token>, a: word, b: word, c: word)
    requires ts == [Operand(a), Oper(OR), Operand(b), Oper(AND), Operand(c)]
    ensures Opand(ASSEMBLER, ts) == Binary(OR, a, Binary(AND, b, c))
  {
    TwoOperators(ts, a, OR, b, AND, c);
  }

  // NOT comes before AND.
  lemma NotBeforeAnd(ts: seq<Token>, a: word, b: word)
    requires ts == [Oper(NOT), Operand(a), Oper(AND), Operand(b)]
    ensures Opand(ASSEMBLER, ts) == Binary(AND, WORD - 1 - a, b)
  {
    SignAndOperator(ts, NOT, a, AND, b);
  }

  // And a product before its sign.
  lemma ProductBeforeSign(ts: seq<Token>, a: word, b: word)
    requires ts == [Oper(SUB), Operand(a), Oper(MUL), Operand(b)]
    ensures Opand(ASSEMBLER, ts) == -(a * b) % WORD
  {
    NegatedProduct(a, b, a * b);
    ProductThenSign(ts, a, b, Val(-(a * b) % WORD));
  }

  lemma ProductThenSign(ts: seq<Token>, a: word, b: word, v: Value)
    requires ts == [Oper(SUB), Operand(a), Oper(MUL), Operand(b)]
    requires UnaryValue(ASSEMBLER, NEG, Apply2(MUL, Val(a), Val(b))) == v
    ensures Yielded(ts, v)
  {
    SignAndOperator(ts, NEG, a, MUL, b);
  }

  lemma NegatedProduct(a: word, b: word, x: int)
    requires x == a * b
    ensures UnaryValue(ASSEMBLER, NEG, Apply2(MUL, Val(a), Val(b))) == Val(-x % WORD)
  {
    NegativeOf(x);
  }

  lemma NegativeOf(x: int)
    ensures -x % WORD == if x % WORD == 0 then 0 else WORD - x % WORD
  {
    var k := x / WORD;
    assert -x == WORD * (-k - 1) + (WORD - x % WORD);
    assert x % WORD == 0 ==> -x == WORD * -k;
  }
}
