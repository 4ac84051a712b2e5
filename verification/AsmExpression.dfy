/**
  The CP/M assembler's operand evaluator: a two-stack operator-precedence algorithm, proved to
  compute the value of the parse tree for every expression of the grammar its priorities define.
 */
module AsmExpression {
  import opened Arithmetic
  import opened AsmArithmetic

  const VALUES := 8      // VSMAX / 2
  const OPERATORS := 10  // OSMAX

  datatype Op = MUL | DIV | MOD | SHL | SHR | ADD | SUB | NEG | NOT | AND | OR | XOR | LPAR | RPAR

  // The priorities of the reserved-word tables; unary minus keeps the priority of minus.
  function Prio(op: Op): (p: int)
    ensures p >= 20
  {
    match op
    case MUL => 80 case DIV => 80 case MOD => 80 case SHL => 80 case SHR => 80
    case ADD => 70 case SUB => 70 case NEG => 70
    case NOT => 60
    case AND => 50
    case OR => 40 case XOR => 40
    case RPAR => 30
    case LPAR => 20
  }

  predicate IsBinary(op: Op) { !op.NEG? && !op.NOT? && !op.LPAR? && !op.RPAR? }

  predicate IsUnary(op: Op) { op == NEG || op == NOT }

  // A scanned item: a value, or a reserved operator.  The end of the expression ends the list.
  datatype Token = Operand(value: word) | Oper(op: Op)

  // --- what the operators compute

  predicate ShiftRefused(op: Op, b: word) { (op == SHL || op == SHR) && b > 16 }

  function Binary(op: Op, a: word, b: word): word {
    match op
    case MUL => a * b % WORD
    case DIV => if b == 0 then 0xFFFF else QuotientIsWord(a, b); a / b
    case MOD => if b == 0 then a else a % b
    case SHL => Shl(a, if b > 16 then 16 else b) % WORD
    case SHR => ShrIsWord(a, if b > 16 then 16 else b); Shr(a, if b > 16 then 16 else b)
    case ADD => (a + b) % WORD
    case SUB => (a - b) % WORD
    case AND => WordLogic(AndBits, a, b)
    case OR => WordLogic(OrBits, a, b)
    case XOR => WordLogic(XorBits, a, b)
    case _ => 0
  }

  function WordLogic(op: Logic, a: word, b: word): word {
    BitwiseBound(op, 16, a, b);
    ShlWord(1);
    Bitwise(op, 16, a, b)
  }

  lemma QuotientIsWord(a: word, b: word)
    requires b > 0
    ensures 0 <= a / b < WORD
  {
    QuotientBound(a, b, a / b, a % b);
  }

  lemma QuotientBound(a: int, b: int, q: int, r: int)
    requires a == b * q + r && 0 <= r < b && 0 <= a
    ensures 0 <= q <= a
  {
    if q >= 0 {
      assert (b - 1) * q >= 0;
      assert (b - 1) * q == b * q - q;
    }
  }

  lemma {:induction false} ShrIsWord(a: nat, n: nat)
    ensures Shr(a, n) <= a
  {
    if n > 0 { ShrIsWord(a / 2, n - 1); }
  }

  function Unary(op: Op, a: word): word {
    if op == NEG then (if a == 0 then 0 else WORD - a) else WORD - 1 - a
  }

  // --- laws of the operators

  // Minus undoes plus, the negative of a number cancels it, and NOT is one less.
  lemma SumLaws(a: word, b: word)
    ensures Binary(SUB, Binary(ADD, a, b), b) == a && Binary(ADD, a, 0) == a && Binary(ADD, 0, b) == b
    ensures Binary(ADD, a, Unary(NEG, a)) == 0 && Binary(SUB, a, b) == Binary(ADD, a, Unary(NEG, b))
    ensures Binary(ADD, Unary(NOT, a), 1) == Unary(NEG, a)
    ensures a + b < WORD ==> Binary(ADD, a, b) == a + b
  {
  }

  // Quotient and remainder, and what a zero divisor gives; a product that fits is exact.
  lemma ProductLaws(a: word, b: word)
    ensures b != 0 ==> a == Binary(DIV, a, b) * b + Binary(MOD, a, b) && Binary(MOD, a, b) < b
    ensures b == 0 ==> Binary(DIV, a, b) == 0xFFFF && Binary(MOD, a, b) == a
    ensures a * b < WORD ==> Binary(MUL, a, b) == a * b
    ensures exists k :: a * b == Binary(MUL, a, b) + WORD * k
  {
    assert a * b == Binary(MUL, a, b) + WORD * (a * b / WORD);
  }

  // Shifts are products with powers of two, and quotients by them.
  lemma ShiftLaws(a: word, k: nat)
    requires k <= 16
    ensures Binary(SHL, a, k) == a * Pow2(k) % WORD && Binary(SHR, a, k) == a / Pow2(k)
  {
    ShlIsProduct(a, k);
    ShrIsQuotient(a, k);
  }

  lemma {:induction false} ShlIsProduct(a: int, k: nat)
    ensures Shl(a, k) == a * Pow2(k)
  {
    if k > 0 {
      ShlIsProduct(a, k - 1);
      assert a * (2 * Pow2(k - 1)) == 2 * (a * Pow2(k - 1));
    }
  }

  lemma {:induction false} ShrIsQuotient(a: nat, k: nat)
    ensures Shr(a, k) == a / Pow2(k)
    decreases k
  {
    if k > 0 {
      ShrIsQuotient(a / 2, k - 1);
      HalfOfQuotient(a, Pow2(k - 1));
    }
  }

  // AND, OR and XOR bit by bit, and their sums.
  lemma LogicLaws(a: word, b: word)
    ensures forall k :: 0 <= k < 16 ==>
      && (BitAt(Binary(AND, a, b), k) == 1 <==> BitAt(a, k) == 1 && BitAt(b, k) == 1)
      && (BitAt(Binary(OR, a, b), k) == 1 <==> BitAt(a, k) == 1 || BitAt(b, k) == 1)
      && (BitAt(Binary(XOR, a, b), k) == 1 <==> (BitAt(a, k) == 1) != (BitAt(b, k) == 1))
    ensures Binary(AND, a, b) + Binary(OR, a, b) == a + b
    ensures Binary(XOR, a, b) == Binary(OR, a, b) - Binary(AND, a, b)
  {
    forall k | 0 <= k < 16
      ensures BitIs(AndBits, BitAt(a, k), BitAt(b, k), BitAt(Binary(AND, a, b), k))
      ensures BitIs(OrBits, BitAt(a, k), BitAt(b, k), BitAt(Binary(OR, a, b), k))
      ensures BitIs(XorBits, BitAt(a, k), BitAt(b, k), BitAt(Binary(XOR, a, b), k))
    {
      BitwiseBits(AndBits, 16, a, b, k);
      BitwiseBits(OrBits, 16, a, b, k);
      BitwiseBits(XorBits, 16, a, b, k);
    }
    ShlWord(1);
    LogicSums(16, a, b);
  }

  // The meaning of the operators.  The precedence algorithm is correct whatever it is.
  datatype Meaning = Meaning(un: (Op, word) -> word, bin: (Op, word, word) -> word, refuse: (Op, word) -> bool)

  const ASSEMBLER := Meaning(Unary, Binary, ShiftRefused)

  // --- the evaluator's state and its steps

  datatype Machine = Machine(vals: seq<word>, ops: seq<Op>, unary: bool, err: bool)

  // STKV: a full stack is an error and starts again from the bottom.
  function PushVal(m: Machine, v: word): Machine {
    if |m.vals| >= VALUES then m.(vals := [v], err := true) else m.(vals := m.vals + [v])
  }

  // STKO.
  function PushOp(m: Machine, op: Op): Machine {
    if |m.ops| >= OPERATORS then m.(ops := [op], err := true) else m.(ops := m.ops + [op])
  }

  // LODV1: an empty stack is an error and yields zero.
  function Top(m: Machine): word {
    if m.vals == [] then 0 else m.vals[|m.vals| - 1]
  }

  function PopVal(m: Machine): Machine {
    if m.vals == [] then m.(err := true) else m.(vals := m.vals[..|m.vals| - 1])
  }

  // APPLY.
  function Apply(mean: Meaning, m: Machine, op: Op): Machine {
    if IsUnary(op) then PushVal(PopVal(m), mean.un(op, Top(m)))
    else if IsBinary(op) then
      var m1 := PopVal(m);
      var m2 := PopVal(m1);
      var a, b := Top(m1), Top(m);
      PushVal(if mean.refuse(op, b) then m2.(err := true) else m2, mean.bin(op, a, b))
    else m.(err := true)
  }

  function TopOp(m: Machine): Op
    requires m.ops != []
  {
    m.ops[|m.ops| - 1]
  }

  function DropOp(m: Machine): Machine
    requires m.ops != []
  {
    m.(ops := m.ops[..|m.ops| - 1])
  }

  // OPER2: apply stacked operators of at least the priority p.
  function Reduce(mean: Meaning, m: Machine, p: int): Machine
    decreases |m.ops|
  {
    if m.ops == [] || Prio(TopOp(m)) < p then m else Reduce(mean, Apply(mean, DropOp(m), TopOp(m)), p)
  }

  lemma ReduceStep(mean: Meaning, m: Machine, p: int)
    ensures Reduce(mean, m, p)
         == if m.ops == [] || Prio(TopOp(m)) < p then m else Reduce(mean, Apply(mean, DropOp(m), TopOp(m)), p)
  {
  }

  // OPER2 to OPER5: reduce, then stack the operator, or match the parenthesis.
  function Enter(mean: Meaning, m: Machine, op: Op): Machine {
    var m1 := Reduce(mean, m, Prio(op));
    if op != RPAR then PushOp(m1, op).(unary := true)
    else if m1.ops == [] then m1.(err := true, unary := false)
    else DropOp(m1).(err := m1.err || TopOp(m1) != LPAR, unary := false)
  }

  // OP1 onwards: one scanned item.  After an error the rest of the expression is skipped.
  function Step(mean: Meaning, m: Machine, t: Token): Machine {
    if m.err then m
    else match t
      case Operand(v) => PushVal(m.(err := !m.unary, unary := false), v)
      case Oper(op) =>
        if op == LPAR then PushOp(m.(err := !m.unary), LPAR).(unary := true)
        else if !m.unary then Enter(mean, m, op)
        else if op == ADD then m
        else if op == SUB then Enter(mean, m, NEG)
        else if op == NOT then Enter(mean, m, NOT)
        else Enter(mean, m.(err := true), op)
  }

  function Run(mean: Meaning, m: Machine, ts: seq<Token>): Machine
    decreases |ts|
  {
    if ts == [] then m else Run(mean, Step(mean, m, ts[0]), ts[1..])
  }

  // EMPOP: apply everything left on the operator stack.
  function Drain(mean: Meaning, m: Machine): Machine
    decreases |m.ops|
  {
    if m.ops == [] then m else Drain(mean, Apply(mean, DropOp(m), TopOp(m)))
  }

  // CHKVAL.
  predicate Failed(m: Machine) { m.err || |m.vals| != 1 }

  // The whole operand field.
  function Scanned(mean: Meaning, ts: seq<Token>): Machine {
    Drain(mean, Run(mean, Machine([], [], true, false), ts))
  }

  function Opand(mean: Meaning, ts: seq<Token>): word {
    var m := Scanned(mean, ts);
    if Failed(m) then 0 else m.vals[0]
  }

  // --- expressions and their values

  datatype Expr =
    | Num(v: word)
    | Paren(e: Expr)
    | Plus(e: Expr)
    | Un(op: Op, e: Expr)
    | Bin(op: Op, l: Expr, r: Expr)

  function Level(e: Expr): int {
    match e
    case Num(_) => 100
    case Paren(_) => 100
    case Plus(e1) => Level(e1)
    case Un(op, _) => Prio(op)
    case Bin(op, _, _) => Prio(op)
  }

  // The grammar of the priorities: operators of one level associate to the left, and a unary
  // operator takes everything that binds more tightly than itself.
  predicate InGrammar(e: Expr) {
    match e
    case Num(_) => true
    case Paren(e1) => InGrammar(e1)
    case Plus(e1) => InGrammar(e1)
    case Un(op, e1) => IsUnary(op) && InGrammar(e1) && Level(e1) > Prio(op)
    case Bin(op, l, r) => IsBinary(op) && InGrammar(l) && InGrammar(r) && Level(l) >= Prio(op) && Level(r) > Prio(op)
  }

  function Tokens(e: Expr): seq<Token> {
    match e
    case Num(v) => [Operand(v)]
    case Paren(e1) => [Oper(LPAR)] + Tokens(e1) + [Oper(RPAR)]
    case Plus(e1) => [Oper(ADD)] + Tokens(e1)
    case Un(op, e1) => [Oper(if op == NEG then SUB else op)] + Tokens(e1)
    case Bin(op, l, r) => Tokens(l) + [Oper(op)] + Tokens(r)
  }

  datatype Value = Val(v: word) | Refused

  function UnaryValue(mean: Meaning, op: Op, a: Value): Value {
    match a case Val(v) => Val(mean.un(op, v)) case Refused => Refused
  }

  function BinaryValue(mean: Meaning, op: Op, a: Value, b: Value): Value {
    if a == Refused || b == Refused || mean.refuse(op, b.v) then Refused else Val(mean.bin(op, a.v, b.v))
  }

  // The value of the parse tree; a shift count above 16 is refused.
  function Eval(mean: Meaning, e: Expr): Value
    requires InGrammar(e)
  {
    match e
    case Num(v) => Val(v)
    case Paren(e1) => Eval(mean, e1)
    case Plus(e1) => Eval(mean, e1)
    case Un(op, e1) => UnaryValue(mean, op, Eval(mean, e1))
    case Bin(op, l, r) => BinaryValue(mean, op, Eval(mean, l), Eval(mean, r))
  }

  // Stack depth an expression needs.
  function ValueDepth(e: Expr): (n: nat)
    ensures n >= 1
  {
    match e
    case Num(_) => 1
    case Paren(e1) => ValueDepth(e1)
    case Plus(e1) => ValueDepth(e1)
    case Un(_, e1) => ValueDepth(e1)
    case Bin(_, l, r) => Max(ValueDepth(l), 1 + ValueDepth(r))
  }

  function OperatorDepth(e: Expr): nat {
    match e
    case Num(_) => 0
    case Paren(e1) => 1 + OperatorDepth(e1)
    case Plus(e1) => OperatorDepth(e1)
    case Un(_, e1) => 1 + OperatorDepth(e1)
    case Bin(_, l, r) => Max(OperatorDepth(l), 1 + OperatorDepth(r))
  }

  function Max(a: nat, b: nat): nat { if a > b then a else b }

  // --- pending operators

  function Binaries(ops: seq<Op>): nat {
    if ops == [] then 0 else (if IsBinary(ops[|ops| - 1]) then 1 else 0) + Binaries(ops[..|ops| - 1])
  }

  ghost predicate AllOperators(ops: seq<Op>) {
    forall i :: 0 <= i < |ops| ==> IsBinary(ops[i]) || IsUnary(ops[i])
  }

  ghost predicate AllAtLeast(ops: seq<Op>, p: int) {
    forall i :: 0 <= i < |ops| ==> Prio(ops[i]) >= p
  }

  // Values vs and operators ops that reduce to a single value.
  ghost predicate Pending(vs: seq<word>, ops: seq<Op>) {
    AllOperators(ops) && |vs| == 1 + Binaries(ops)
  }

  // Enough values for op, and op one that can be applied.
  predicate Applicable(vs: seq<word>, op: Op) {
    (IsUnary(op) && |vs| >= 1) || (IsBinary(op) && |vs| >= 2)
  }

  function AfterOp(mean: Meaning, vs: seq<word>, op: Op): seq<word>
    requires Applicable(vs, op)
  {
    var n := |vs|;
    if IsUnary(op) then vs[..n - 1] + [mean.un(op, vs[n - 1])]
    else vs[..n - 2] + [mean.bin(op, vs[n - 2], vs[n - 1])]
  }

  predicate RefusedOn(mean: Meaning, vs: seq<word>, op: Op)
    requires Applicable(vs, op)
  {
    IsBinary(op) && mean.refuse(op, vs[|vs| - 1])
  }

  // The value they reduce to, applying from the top of the stack.
  ghost function Collapse(mean: Meaning, vs: seq<word>, ops: seq<Op>): Value
    requires Pending(vs, ops)
    decreases |ops|
  {
    if ops == [] then Val(vs[0])
    else
      var op, rest := ops[|ops| - 1], ops[..|ops| - 1];
      if RefusedOn(mean, vs, op) then Refused else Collapse(mean, AfterOp(mean, vs, op), rest)
  }

  lemma PendingTop(mean: Meaning, vs: seq<word>, ops: seq<Op>)
    requires Pending(vs, ops) && ops != []
    ensures Applicable(vs, ops[|ops| - 1]) && Pending(AfterOp(mean, vs, ops[|ops| - 1]), ops[..|ops| - 1])
  {
  }

  lemma AfterOpOn(mean: Meaning, A: seq<word>, vs: seq<word>, op: Op)
    requires Applicable(vs, op)
    ensures AfterOp(mean, A + vs, op) == A + AfterOp(mean, vs, op)
    ensures RefusedOn(mean, A + vs, op) == RefusedOn(mean, vs, op)
  {
    TopOf(A, vs, 1);
    if IsBinary(op) {
      TopOf(A, vs, 2);
      var v := mean.bin(op, vs[|vs| - 2], vs[|vs| - 1]);
      assert A + vs[..|vs| - 2] + [v] == A + (vs[..|vs| - 2] + [v]);
    } else {
      var v := mean.un(op, vs[|vs| - 1]);
      assert A + vs[..|vs| - 1] + [v] == A + (vs[..|vs| - 1] + [v]);
    }
  }

  // The last n elements lie in the upper part.
  lemma TopOf(A: seq<word>, vs: seq<word>, n: nat)
    requires 1 <= n <= |vs|
    ensures (A + vs)[..|A + vs| - n] == A + vs[..|vs| - n]
    ensures (A + vs)[|A + vs| - n] == vs[|vs| - n]
  {
  }

  // --- the algorithm follows the tree

  lemma {:induction false} RunAppend(mean: Meaning, m: Machine, ts: seq<Token>, us: seq<Token>)
    ensures Run(mean, m, ts + us) == Run(mean, Run(mean, m, ts), us)
    decreases |ts|
  {
    if ts == [] {
      assert ts + us == us;
    } else {
      assert (ts + us)[1..] == ts[1..] + us;
      RunAppend(mean, Step(mean, m, ts[0]), ts[1..], us);
    }
  }

  lemma RunOne(mean: Meaning, m: Machine, t: Token)
    ensures Run(mean, m, [t]) == Step(mean, m, t)
  {
    assert [t][1..] == [];
  }

  lemma {:induction false} ErrorStays(mean: Meaning, m: Machine, ts: seq<Token>)
    requires m.err
    ensures Run(mean, m, ts) == m
    decreases |ts|
  {
    if ts != [] { ErrorStays(mean, m, ts[1..]); }
  }

  lemma {:induction false} ReduceKeepsError(mean: Meaning, m: Machine, p: int)
    requires m.err
    ensures Reduce(mean, m, p).err
    decreases |m.ops|
  {
    if m.ops != [] && Prio(TopOp(m)) >= p {
      ReduceKeepsError(mean, Apply(mean, DropOp(m), TopOp(m)), p);
    }
  }

  lemma {:induction false} DrainKeepsError(mean: Meaning, m: Machine)
    requires m.err
    ensures Drain(mean, m).err
    decreases |m.ops|
  {
    if m.ops != [] {
      DrainKeepsError(mean, Apply(mean, DropOp(m), TopOp(m)));
    }
  }

  // Applying an operator with enough values.
  lemma ApplyEnough(mean: Meaning, m: Machine, op: Op)
    requires Applicable(m.vals, op) && !m.err && |m.vals| <= VALUES
    ensures RefusedOn(mean, m.vals, op) ==> Apply(mean, m, op).err
    ensures !RefusedOn(mean, m.vals, op) ==> Apply(mean, m, op) == m.(vals := AfterOp(mean, m.vals, op))
  {
    if IsBinary(op) {
      assert m.vals[..|m.vals| - 1][..|m.vals| - 2] == m.vals[..|m.vals| - 2];
    }
  }

  // Reducing the top pending operator of a machine whose pending part stands on V and O.
  lemma ReduceTop(mean: Meaning, m: Machine, V: seq<word>, vs: seq<word>, O: seq<Op>, rest: seq<Op>, op: Op, p: int)
    requires Applicable(vs, op) && Prio(op) >= p
    requires m.vals == V + vs && m.ops == O + rest + [op] && !m.err && |m.vals| <= VALUES
    ensures RefusedOn(mean, vs, op) ==> Reduce(mean, m, p).err
    ensures !RefusedOn(mean, vs, op) ==>
      Reduce(mean, m, p) == Reduce(mean, m.(vals := V + AfterOp(mean, vs, op), ops := O + rest), p)
  {
    var m0 := m.(ops := O + rest);
    assert m.ops[..|m.ops| - 1] == O + rest && TopOp(m) == op;
    assert Reduce(mean, m, p) == Reduce(mean, Apply(mean, m0, op), p);
    AfterOpOn(mean, V, vs, op);
    ApplyEnough(mean, m0, op);
    if RefusedOn(mean, vs, op) {
      ReduceKeepsError(mean, Apply(mean, m0, op), p);
    }
  }

  // Reducing all of it.
  lemma {:induction false} ReducePending(mean: Meaning, m: Machine, V: seq<word>, vs: seq<word>, O: seq<Op>,
                                         os: seq<Op>, p: int)
    requires Pending(vs, os) && AllAtLeast(os, p) && (O == [] || Prio(O[|O| - 1]) < p)
    requires m.vals == V + vs && m.ops == O + os && !m.err && |m.vals| <= VALUES
    ensures Collapse(mean, vs, os) == Refused ==> Reduce(mean, m, p).err
    ensures Collapse(mean, vs, os) != Refused ==>
      Reduce(mean, m, p) == m.(vals := V + [Collapse(mean, vs, os).v], ops := O)
    decreases |os|
  {
    if os == [] {
      assert O + os == O;
      assert V + vs == V + [vs[0]];
    } else {
      var op, rest := os[|os| - 1], os[..|os| - 1];
      assert O + os == O + rest + [op];
      PendingTop(mean, vs, os);
      ReduceTop(mean, m, V, vs, O, rest, op, p);
      if !RefusedOn(mean, vs, op) {
        var after := AfterOp(mean, vs, op);
        ReducePending(mean, m.(vals := V + after, ops := O + rest), V, after, O, rest, p);
      }
    }
  }

  lemma CollapseTop(mean: Meaning, vs: seq<word>, rest: seq<Op>, op: Op)
    requires Applicable(vs, op) && Pending(AfterOp(mean, vs, op), rest)
    ensures Pending(vs, rest + [op])
    ensures Collapse(mean, vs, rest + [op])
         == if RefusedOn(mean, vs, op) then Refused else Collapse(mean, AfterOp(mean, vs, op), rest)
  {
    assert (rest + [op])[..|rest|] == rest;
  }

  // Pending work stacked on pending operators B and their left operands A.
  lemma {:induction false} CollapseOn(mean: Meaning, A: seq<word>, B: seq<Op>, vs: seq<word>, os: seq<Op>)
    requires Pending(vs, os) && AllOperators(B) && |A| == Binaries(B)
    ensures Pending(A + vs, B + os)
    ensures Collapse(mean, vs, os) == Refused ==> Collapse(mean, A + vs, B + os) == Refused
    ensures Collapse(mean, vs, os) != Refused ==>
      var v := Collapse(mean, vs, os).v;
      Pending(A + [v], B) && Collapse(mean, A + vs, B + os) == Collapse(mean, A + [v], B)
    decreases |os|
  {
    if os == [] {
      assert B + os == B;
      assert A + vs == A + [vs[0]];
    } else {
      var op, rest := os[|os| - 1], os[..|os| - 1];
      assert B + os == B + rest + [op];
      PendingTop(mean, vs, os);
      AfterOpOn(mean, A, vs, op);
      CollapseOn(mean, A, B, AfterOp(mean, vs, op), rest);
      CollapseTop(mean, A + vs, B + rest, op);
    }
  }

  ghost predicate PendingFor(mean: Meaning, vs: seq<word>, os: seq<Op>, p: int, value: Value) {
    Pending(vs, os) && AllAtLeast(os, p) && Collapse(mean, vs, os) == value
  }

  // vs and os, all of priority p or more, reduce to value.
  ghost predicate Yields(mean: Meaning, vs: seq<word>, os: seq<Op>, p: int, value: Value) {
    forall x {:trigger Unfold(x)} :: Unfold(x) ==> PendingFor(mean, vs, os, p, value)
  }

  lemma YieldsOperand(mean: Meaning, v: word, p: int)
    ensures Yields(mean, [v], [], p, Val(v))
  {
    assert PendingFor(mean, [v], [], p, Val(v));
  }

  lemma YieldsUnary(mean: Meaning, op: Op, vs: seq<word>, os: seq<Op>, p: int, value: Value)
    requires IsUnary(op) && Yields(mean, vs, os, p, value) && p >= Prio(op)
    ensures Yields(mean, vs, [op] + os, Prio(op), UnaryValue(mean, op, value))
  {
    assert Unfold(0);
    assert Binaries([op]) == 0 by { assert [op][..0] == []; }
    CollapseOn(mean, [], [op], vs, os);
    assert [] + vs == vs;
    if value != Refused {
      CollapseUnary(mean, op, value.v);
      assert [] + [value.v] == [value.v];
    }
    assert AllAtLeast([op] + os, Prio(op));
  }

  lemma YieldsBinary(mean: Meaning, op: Op, a: word, vs: seq<word>, os: seq<Op>, p: int, value: Value)
    requires IsBinary(op) && Yields(mean, vs, os, p, value) && p >= Prio(op)
    ensures Yields(mean, [a] + vs, [op] + os, Prio(op), BinaryValue(mean, op, Val(a), value))
  {
    assert Unfold(0);
    assert Binaries([op]) == 1 by { assert [op][..0] == []; }
    CollapseOn(mean, [a], [op], vs, os);
    if value != Refused {
      CollapseBinary(mean, op, a, value.v);
      assert [a] + [value.v] == [a, value.v];
    }
    assert AllAtLeast([op] + os, Prio(op));
  }

  lemma YieldsReduce(mean: Meaning, m: Machine, V: seq<word>, vs: seq<word>, O: seq<Op>, os: seq<Op>, p: int, q: int,
                     value: Value)
    requires Yields(mean, vs, os, p, value) && q <= p && (O == [] || Prio(O[|O| - 1]) < q)
    requires m.vals == V + vs && m.ops == O + os && !m.err && |m.vals| <= VALUES
    ensures value == Refused ==> Reduce(mean, m, q).err
    ensures value != Refused ==> Reduce(mean, m, q) == m.(vals := V + [value.v], ops := O)
  {
    assert Unfold(0);
    ReducePending(mean, m, V, vs, O, os, q);
  }

  // m' continues m: unless an error stopped it, its new part is pending work for e.
  ghost predicate Continues(mean: Meaning, m: Machine, m': Machine, e: Expr)
    requires InGrammar(e)
  {
    if m'.err then Eval(mean, e) == Refused
    else exists vs, os :: Adds(mean, m, m', e, vs, os)
  }

  ghost predicate Adds(mean: Meaning, m: Machine, m': Machine, e: Expr, vs: seq<word>, os: seq<Op>)
    requires InGrammar(e)
  {
    && m' == Machine(m.vals + vs, m.ops + os, false, false)
    && |vs| <= ValueDepth(e) && |os| <= OperatorDepth(e)
    && Yields(mean, vs, os, Level(e), Eval(mean, e))
  }

  ghost predicate Ready(m: Machine, e: Expr) {
    && !m.err && m.unary
    && (m.ops == [] || Prio(TopOp(m)) < Level(e))
    && |m.vals| + ValueDepth(e) <= VALUES && |m.ops| + OperatorDepth(e) <= OPERATORS
  }

  // Entering an operator of priority p after e reduces e to its value.
  lemma ReduceExpr(mean: Meaning, m: Machine, m': Machine, e: Expr, p: int)
    requires InGrammar(e) && Ready(m, e) && Continues(mean, m, m', e) && !m'.err
    requires p <= Level(e) && (m.ops == [] || Prio(TopOp(m)) < p)
    ensures Eval(mean, e) == Refused ==> Reduce(mean, m', p).err
    ensures Eval(mean, e) != Refused ==> Reduce(mean, m', p) == Machine(m.vals + [Eval(mean, e).v], m.ops, false, false)
  {
    var vs, os :| Adds(mean, m, m', e, vs, os);
    YieldsReduce(mean, m', m.vals, vs, m.ops, os, Level(e), p, Eval(mean, e));
  }

  lemma {:induction false} LevelAbove(e: Expr)
    requires InGrammar(e)
    ensures 40 <= Level(e)
  {
    if e.Plus? { LevelAbove(e.e); }
  }

  // Running over the text of an expression leaves its value pending.
  lemma {:induction false} Follows(mean: Meaning, e: Expr, m: Machine)
    requires InGrammar(e) && Ready(m, e)
    ensures Continues(mean, m, Run(mean, m, Tokens(e)), e)
    decreases e
  {
    match e
    case Num(v) =>
      RunOne(mean, m, Operand(v));
      assert m.ops + [] == m.ops;
      YieldsOperand(mean, v, Level(e));
      assert Adds(mean, m, Run(mean, m, Tokens(e)), e, [v], []);
    case Plus(e1) =>
      RunAppend(mean, m, [Oper(ADD)], Tokens(e1));
      RunOne(mean, m, Oper(ADD));
      Follows(mean, e1, m);
      PlusFollows(mean, m, Run(mean, m, Tokens(e)), e1);
    case Un(op, e1) => UnaryFollows(mean, e, m);
    case Paren(e1) => ParenFollows(mean, e, m);
    case Bin(op, l, r) => BinaryFollows(mean, e, m);
  }

  lemma PlusFollows(mean: Meaning, m: Machine, m': Machine, e1: Expr)
    requires InGrammar(e1) && Continues(mean, m, m', e1)
    ensures Continues(mean, m, m', Plus(e1))
  {
    if !m'.err {
      var vs, os :| Adds(mean, m, m', e1, vs, os);
      assert Adds(mean, m, m', Plus(e1), vs, os);
    }
  }

  lemma {:induction false} UnaryFollows(mean: Meaning, e: Expr, m: Machine)
    requires e.Un? && InGrammar(e) && Ready(m, e)
    ensures Continues(mean, m, Run(mean, m, Tokens(e)), e)
    decreases e, 0
  {
    var op, e1 := e.op, e.e;
    var t := Oper(if op == NEG then SUB else op);
    RunAppend(mean, m, [t], Tokens(e1));
    RunOne(mean, m, t);
    var m1 := Step(mean, m, t);
    assert Reduce(mean, m, Prio(op)) == m;
    assert m1 == m.(ops := m.ops + [op]);
    Follows(mean, e1, m1);
    OperandFollows(mean, e, m, m1, Run(mean, m1, Tokens(e1)));
  }

  lemma OperandFollows(mean: Meaning, e: Expr, m: Machine, m1: Machine, m': Machine)
    requires e.Un? && InGrammar(e)
    requires m1 == m.(ops := m.ops + [e.op])
    requires Continues(mean, m1, m', e.e)
    ensures Continues(mean, m, m', e)
  {
    var op, e1 := e.op, e.e;
    if !m'.err {
      var vs, os :| Adds(mean, m1, m', e1, vs, os);
      assert m.ops + [op] + os == m.ops + ([op] + os);
      YieldsUnary(mean, op, vs, os, Level(e1), Eval(mean, e1));
      assert Adds(mean, m, m', e, vs, [op] + os);
    }
  }

  lemma CollapseUnary(mean: Meaning, op: Op, a: word)
    requires IsUnary(op)
    ensures Pending([a], [op]) && Collapse(mean, [a], [op]) == Val(mean.un(op, a))
  {
    assert [op][..0] == [];
    assert [a][..0] + [mean.un(op, a)] == [mean.un(op, a)];
  }

  lemma CollapseBinary(mean: Meaning, op: Op, a: word, b: word)
    requires IsBinary(op)
    ensures Pending([a, b], [op])
    ensures Collapse(mean, [a, b], [op]) == if mean.refuse(op, b) then Refused else Val(mean.bin(op, a, b))
  {
    assert [op][..0] == [];
    assert [a, b][..0] + [mean.bin(op, a, b)] == [mean.bin(op, a, b)];
  }

  // The closing parenthesis reduces the inner expression and drops the opening one.
  lemma CloseFollows(mean: Meaning, e: Expr, m: Machine, m1: Machine, m2: Machine)
    requires e.Paren? && InGrammar(e) && m1 == m.(ops := m.ops + [LPAR]) && Ready(m1, e.e)
    requires Continues(mean, m1, m2, e.e) && !m2.err
    ensures Continues(mean, m, Step(mean, m2, Oper(RPAR)), e)
  {
    LevelAbove(e.e);
    ReduceExpr(mean, m1, m2, e.e, Prio(RPAR));
    var m3 := Reduce(mean, m2, Prio(RPAR));
    if Eval(mean, e.e) != Refused {
      var v := Eval(mean, e.e).v;
      assert DropOp(m3).ops == m.ops;
      assert m.ops + [] == m.ops;
      YieldsOperand(mean, v, Level(e));
      assert Adds(mean, m, Step(mean, m2, Oper(RPAR)), e, [v], []);
    }
  }

  lemma {:induction false} ParenFollows(mean: Meaning, e: Expr, m: Machine)
    requires e.Paren? && InGrammar(e) && Ready(m, e)
    ensures Continues(mean, m, Run(mean, m, Tokens(e)), e)
    decreases e, 0
  {
    var e1 := e.e;
    var m1 := Step(mean, m, Oper(LPAR));
    RunAppend(mean, m, [Oper(LPAR)], Tokens(e1));
    RunOne(mean, m, Oper(LPAR));
    RunAppend(mean, m, [Oper(LPAR)] + Tokens(e1), [Oper(RPAR)]);
    assert m1 == m.(ops := m.ops + [LPAR]);
    LevelAbove(e1);
    Follows(mean, e1, m1);
    var m2 := Run(mean, m1, Tokens(e1));
    RunOne(mean, m2, Oper(RPAR));
    assert Run(mean, m, Tokens(e)) == Step(mean, m2, Oper(RPAR));
    if !m2.err {
      CloseFollows(mean, e, m, m1, m2);
    }
  }

  // After the left operand, entering op leaves its value and op.
  lemma LeftFollows(mean: Meaning, e: Expr, m: Machine, m1: Machine)
    requires e.Bin? && InGrammar(e) && Ready(m, e.l) && Continues(mean, m, m1, e.l) && !m1.err
    requires m.ops == [] || Prio(TopOp(m)) < Prio(e.op)
    ensures Eval(mean, e.l) == Refused || |m.ops| >= OPERATORS ==> Step(mean, m1, Oper(e.op)).err
    ensures Eval(mean, e.l) != Refused && |m.ops| < OPERATORS ==>
              Step(mean, m1, Oper(e.op)) == Machine(m.vals + [Eval(mean, e.l).v], m.ops + [e.op], true, false)
  {
    var vs, os :| Adds(mean, m, m1, e.l, vs, os);
    StepBinary(mean, m1, e.op);
    ReduceExpr(mean, m, m1, e.l, Prio(e.op));
  }

  // A binary operator after an operand reduces what binds as tightly and is stacked.
  lemma StepBinary(mean: Meaning, m: Machine, op: Op)
    requires IsBinary(op) && !m.err && !m.unary
    ensures Step(mean, m, Oper(op)) == PushOp(Reduce(mean, m, Prio(op)), op).(unary := true)
  {
  }

  lemma {:induction false} BinaryFollows(mean: Meaning, e: Expr, m: Machine)
    requires e.Bin? && InGrammar(e) && Ready(m, e)
    ensures Continues(mean, m, Run(mean, m, Tokens(e)), e)
    decreases e, 0
  {
    var op, l, r := e.op, e.l, e.r;
    RunAppend(mean, m, Tokens(l) + [Oper(op)], Tokens(r));
    RunAppend(mean, m, Tokens(l), [Oper(op)]);
    Follows(mean, l, m);
    var m1 := Run(mean, m, Tokens(l));
    RunOne(mean, m1, Oper(op));
    var m2 := Step(mean, m1, Oper(op));
    assert Run(mean, m, Tokens(e)) == Run(mean, m2, Tokens(r));
    if m1.err {
      ErrorStays(mean, m2, Tokens(r));
    } else {
      LeftFollows(mean, e, m, m1);
      if Eval(mean, l) == Refused {
        ErrorStays(mean, m2, Tokens(r));
      } else {
        Follows(mean, r, m2);
        RightFollows(mean, e, m, m2, Run(mean, m2, Tokens(r)), Eval(mean, l).v);
      }
    }
  }

  lemma RightFollows(mean: Meaning, e: Expr, m: Machine, m2: Machine, m': Machine, a: word)
    requires e.Bin? && InGrammar(e) && Eval(mean, e.l) == Val(a)
    requires m2 == Machine(m.vals + [a], m.ops + [e.op], true, false)
    requires Continues(mean, m2, m', e.r)
    ensures Continues(mean, m, m', e)
  {
    var op, r := e.op, e.r;
    if !m'.err {
      var vs, os :| Adds(mean, m2, m', r, vs, os);
      assert m.ops + [op] + os == m.ops + ([op] + os);
      assert m.vals + [a] + vs == m.vals + ([a] + vs);
      YieldsBinary(mean, op, a, vs, os, Level(r), Eval(mean, r));
      assert Adds(mean, m, m', e, [a] + vs, [op] + os);
    }
  }

  lemma {:induction false} DrainIsReduce(mean: Meaning, m: Machine)
    ensures Drain(mean, m) == Reduce(mean, m, 0)
    decreases |m.ops|
  {
    if m.ops != [] {
      var m1 := Apply(mean, DropOp(m), TopOp(m));
      DrainIsReduce(mean, m1);
      assert Reduce(mean, m, 0) == Reduce(mean, m1, 0);
    }
  }

  // --- expressions too deep for the stacks

  // A machine about to scan e that has no room for all of it.
  ghost predicate TooFull(m: Machine, e: Expr) {
    && !m.err && m.unary
    && (m.ops == [] || Prio(TopOp(m)) < Level(e))
    && |m.vals| <= VALUES && |m.ops| <= OPERATORS
    && (|m.vals| + ValueDepth(e) > VALUES || |m.ops| + OperatorDepth(e) > OPERATORS)
  }

  // Running out of room in the middle of an expression is an error.
  lemma {:induction false} Overflows(mean: Meaning, e: Expr, m: Machine)
    requires InGrammar(e) && TooFull(m, e)
    ensures Run(mean, m, Tokens(e)).err
    decreases e, 1
  {
    match e
    case Num(v) => RunOne(mean, m, Operand(v));
    case Plus(e1) =>
      RunAppend(mean, m, [Oper(ADD)], Tokens(e1));
      RunOne(mean, m, Oper(ADD));
      Overflows(mean, e1, m);
    case Un(op, e1) =>
      var t := Oper(if op == NEG then SUB else op);
      assert Reduce(mean, m, Prio(op)) == m;
      OverflowsAfter(mean, e1, m, t, op);
      RunAppend(mean, m, [t], Tokens(e1));
    case Paren(e1) =>
      LevelAbove(e1);
      OverflowsAfter(mean, e1, m, Oper(LPAR), LPAR);
      RunAppend(mean, m, [Oper(LPAR)], Tokens(e1));
      RunAppend(mean, m, [Oper(LPAR)] + Tokens(e1), [Oper(RPAR)]);
      ErrorStays(mean, Run(mean, m, [Oper(LPAR)] + Tokens(e1)), [Oper(RPAR)]);
    case Bin(op, l, r) => BinaryOverflows(mean, e, m);
  }

  // The operator does not fit, or what follows it does not.
  lemma {:induction false} OverflowsAfter(mean: Meaning, e: Expr, m: Machine, t: Token, op: Op)
    requires InGrammar(e) && Prio(op) < Level(e) && |m.vals| <= VALUES && |m.ops| <= OPERATORS
    requires |m.vals| + ValueDepth(e) > VALUES || |m.ops| + 1 + OperatorDepth(e) > OPERATORS
    requires !m.err && Step(mean, m, t) == PushOp(m, op).(unary := true)
    ensures Run(mean, Run(mean, m, [t]), Tokens(e)).err
    decreases e, 2
  {
    RunOne(mean, m, t);
    var m1 := Step(mean, m, t);
    if m1.err {
      ErrorStays(mean, m1, Tokens(e));
    } else {
      Overflows(mean, e, m1);
    }
  }

  lemma {:induction false} BinaryOverflows(mean: Meaning, e: Expr, m: Machine)
    requires e.Bin? && InGrammar(e) && TooFull(m, e)
    ensures Run(mean, m, Tokens(e)).err
    decreases e, 0
  {
    var op, l, r := e.op, e.l, e.r;
    RunAppend(mean, m, Tokens(l) + [Oper(op)], Tokens(r));
    RunAppend(mean, m, Tokens(l), [Oper(op)]);
    var m1 := Run(mean, m, Tokens(l));
    var m2 := Run(mean, m1, [Oper(op)]);
    if Ready(m, l) {
      Follows(mean, l, m);
      if !m1.err {
        RightOverflows(mean, e, m, m1);
      }
    } else {
      Overflows(mean, l, m);
    }
    if m1.err {
      ErrorStays(mean, m1, [Oper(op)]);
      ErrorStays(mean, m2, Tokens(r));
    }
  }

  // With the left operand done, the operator or the right operand is too much.
  lemma {:induction false} RightOverflows(mean: Meaning, e: Expr, m: Machine, m1: Machine)
    requires e.Bin? && InGrammar(e) && TooFull(m, e)
    requires Ready(m, e.l) && Continues(mean, m, m1, e.l) && !m1.err
    ensures Run(mean, Run(mean, m1, [Oper(e.op)]), Tokens(e.r)).err
    decreases e.r, 2
  {
    LeftFollows(mean, e, m, m1);
    RunOne(mean, m1, Oper(e.op));
    var m2 := Step(mean, m1, Oper(e.op));
    if m2.err {
      ErrorStays(mean, m2, Tokens(e.r));
    } else {
      assert |m2.vals| == |m.vals| + 1 && |m2.ops| == |m.ops| + 1 && TopOp(m2) == e.op && m2.unary;
      Overflows(mean, e.r, m2);
    }
  }

  predicate FitsStacks(e: Expr) { ValueDepth(e) <= VALUES && OperatorDepth(e) <= OPERATORS }

  // What the evaluator should make of an expression: nothing if it is too deep or a shift count is refused.
  function Meant(mean: Meaning, e: Expr): Value
    requires InGrammar(e)
  {
    if FitsStacks(e) then Eval(mean, e) else Refused
  }

  // For every expression of the grammar the evaluator yields the value of its parse tree, or reports an error
  // and yields zero; the error comes exactly when the expression is too deep or a shift count is refused.
  lemma OpandIsEval(mean: Meaning, e: Expr)
    requires InGrammar(e)
    ensures Failed(Scanned(mean, Tokens(e))) <==> Meant(mean, e) == Refused
    ensures Opand(mean, Tokens(e)) == match Meant(mean, e) case Val(v) => v case Refused => 0
  {
    var m := Machine([], [], true, false);
    var m' := Run(mean, m, Tokens(e));
    LevelAbove(e);
    if FitsStacks(e) {
      Follows(mean, e, m);
      if !m'.err {
        DrainIsReduce(mean, m');
        ReduceExpr(mean, m, m', e, 0);
      }
    } else {
      Overflows(mean, e, m);
    }
    if m'.err {
      DrainKeepsError(mean, m');
    } else if Eval(mean, e) == Refused {
      assert Drain(mean, m').err;
    }
  }
}
