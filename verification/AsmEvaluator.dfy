/**
  OPAND as the assembler runs it: value, operator and priority stacks in fixed arrays, with
  loops that empty them, each routine proved to be the corresponding step of AsmExpression.
 */
module AsmEvaluator {
  import opened AsmArithmetic
  import opened AsmExpression

  class Evaluator {
    const vstack: array<word>
    const operv: array<Op>
    const hierv: array<int>
    var vsp: nat        // values on vstack
    var osp: nat        // operators on operv and hierv
    var unary: bool     // an operand is expected next
    var err: bool       // an error letter is in the print buffer
    var evalue: word

    ghost predicate Valid()
      reads this, operv, hierv
    {
      && vstack.Length == VALUES && operv.Length == hierv.Length == OPERATORS
      && vstack as object != operv && vstack as object != hierv && operv as object != hierv
      && vsp <= VALUES && osp <= OPERATORS
      && forall i :: 0 <= i < osp ==> hierv[i] == Prio(operv[i])
    }

    ghost function State(): Machine
      requires Valid()
      reads this, vstack, operv, hierv
    {
      Machine(vstack[..vsp], operv[..osp], unary, err)
    }

    constructor ()
      ensures Valid() && !err && fresh(vstack) && fresh(operv) && fresh(hierv)
    {
      vstack := new word[VALUES](_ => 0);
      operv := new Op[OPERATORS](_ => LPAR);
      hierv := new int[OPERATORS](_ => 0);
      vsp, osp, unary, err, evalue := 0, 0, true, false, 0;
    }

    method Stkv(v: word)
      requires Valid()
      modifies this`vsp, this`err, vstack
      ensures Valid() && State() == PushVal(old(State()), v)
    {
      if vsp >= VALUES {
        err := true;
        vsp := 0;
      }
      vstack[vsp] := v;
      vsp := vsp + 1;
    }

    method Stko(op: Op, priority: int)
      requires Valid() && priority == Prio(op)
      modifies this`osp, this`err, operv, hierv
      ensures Valid() && State() == PushOp(old(State()), op)
    {
      if osp >= OPERATORS {
        osp := 0;
        err := true;
      }
      operv[osp] := op;
      hierv[osp] := priority;
      osp := osp + 1;
    }

    method Lodv1() returns (v: word)
      requires Valid()
      modifies this`vsp, this`err
      ensures Valid() && v == Top(old(State())) && State() == PopVal(old(State()))
    {
      if vsp == 0 {
        err := true;
        v := 0;
      } else {
        vsp := vsp - 1;
        v := vstack[vsp];
      }
    }

    // DE gets the top, HL the element below it.
    method Lodv2() returns (de: word, hl: word)
      requires Valid()
      modifies this`vsp, this`err
      ensures Valid() && de == Top(old(State())) && hl == Top(PopVal(old(State())))
      ensures State() == PopVal(PopVal(old(State())))
    {
      de := Lodv1();
      hl := Lodv1();
    }

    // SHFT: a shift count above 16 is an error and counts as 16.
    method Shft() returns (hl: word, count: nat)
      requires Valid()
      modifies this`vsp, this`err
      ensures Valid() && hl == Top(PopVal(old(State())))
      ensures var b := Top(old(State())); count == if b > 16 then 16 else b
      ensures var m := PopVal(PopVal(old(State())));
        State() == m.(err := m.err || Top(old(State())) > 16)
    {
      var de;
      de, hl := Lodv2();
      if de / 256 != 0 || de % 256 >= 17 {
        err := true;
        count := 16;
      } else {
        count := de % 256;
      }
    }

    // The handlers of the binary operators up to the result in HL.
    method Handle(op: Op) returns (r: word)
      requires Valid() && IsBinary(op)
      modifies this`vsp, this`err
      ensures Valid()
      ensures var m := old(State()); r == Binary(op, Top(PopVal(m)), Top(m))
      ensures var m := old(State());
              State() == PopVal(PopVal(m)).(err := PopVal(PopVal(m)).err || ShiftRefused(op, Top(m)))
    {
      if op == SHL || op == SHR {
        var hl, count := Shft();
        if op == SHL {
          r := ShiftLeft(hl, count);
        } else {
          r := ShiftRight(hl, count);
        }
      } else {
        var de, hl := Lodv2();
        r := Compute(op, hl, de);
      }
    }

    // The handlers that are no shifts: HL and DE to HL.
    static method Compute(op: Op, hl: word, de: word) returns (r: word)
      requires IsBinary(op) && op != SHL && op != SHR
      ensures r == Binary(op, hl, de)
    {
      match op
      case MUL => r := Mulf(hl, de);
      case DIV =>
        var quotient, _ := Dive(hl, de);
        r := quotient;
      case MOD =>
        var _, remainder := Dive(hl, de);
        r := remainder;
      case ADD => r := (hl + de) % WORD;
      case SUB =>
        var minus := Negf(de);
        r := (hl + minus) % WORD;
      case AND => r := Logical(AndBits, de, hl);
      case OR => r := Logical(OrBits, de, hl);
      case XOR => r := Logical(XorBits, de, hl);
    }

    // APPLY through OPTAB.
    method ApplyTop(op: Op)
      requires Valid()
      modifies this`vsp, this`err, vstack
      ensures Valid() && State() == Apply(ASSEMBLER, old(State()), op)
    {
      if IsBinary(op) {
        var r := Handle(op);
        Stkv(r);
      } else if op == NEG {
        var hl := Lodv1();
        var r := Negf(hl);
        Stkv(r);
      } else if op == NOT {
        var hl := Lodv1();
        var r := Negf((hl + 1) % WORD);
        Stkv(r);
      } else {
        err := true;
      }
    }

    // Take the top operator off its stack and apply it.
    method ApplyLast()
      requires Valid() && osp != 0
      modifies this`osp, this`vsp, this`err, vstack
      ensures Valid() && osp == old(osp) - 1
      ensures State() == Apply(ASSEMBLER, DropOp(old(State())), TopOp(old(State())))
    {
      ghost var m := State();
      osp := osp - 1;
      assert State() == DropOp(m) && TopOp(m) == operv[osp];
      ApplyTop(operv[osp]);
    }

    // OPER2: apply stacked operators while their priority is not below b.
    method ReduceTo(b: int)
      requires Valid()
      modifies this`vsp, this`osp, this`err, vstack
      ensures Valid() && State() == Reduce(ASSEMBLER, old(State()), b)
    {
      ghost var m := State();
      while osp != 0 && hierv[osp - 1] >= b
        invariant Valid() && Reduce(ASSEMBLER, State(), b) == Reduce(ASSEMBLER, m, b)
        decreases osp
      {
        ReduceStep(ASSEMBLER, State(), b);
        ApplyLast();
      }
      ReduceStep(ASSEMBLER, State(), b);
    }

    // OPER2 to OPER5.
    method EnterOp(op: Op, b: int)
      requires Valid() && b == Prio(op)
      modifies this`vsp, this`osp, this`err, this`unary, vstack, operv, hierv
      ensures Valid() && State() == Enter(ASSEMBLER, old(State()), op)
    {
      ReduceTo(b);
      ghost var m := State();
      if op != RPAR {
        Stko(op, b);
        unary := true;
      } else {
        if osp == 0 {
          err := true;
        } else {
          osp := osp - 1;
          assert operv[..osp] == m.ops[..|m.ops| - 1];
          if operv[osp] != LPAR {
            err := true;
          }
        }
        unary := false;
      }
    }

    // OP1 to STNUM: one scanned item.
    method Item(t: Token)
      requires Valid()
      modifies this`vsp, this`osp, this`err, this`unary, vstack, operv, hierv
      ensures Valid() && State() == Step(ASSEMBLER, old(State()), t)
    {
      if err {
        return;
      }
      match t
      case Operand(v) =>
        if !unary {
          err := true;
        }
        unary := false;
        Stkv(v);
      case Oper(op) =>
        var b := Prio(op);
        if op == LPAR {
          if !unary {
            err := true;
          }
          unary := true;
          Stko(LPAR, b);
        } else if !unary {
          EnterOp(op, b);
        } else if op == SUB {
          EnterOp(NEG, b);
        } else if op != ADD {
          if op != NOT {
            err := true;
          }
          EnterOp(op, b);
        }
    }

    // The items of the operand field, one after the other.
    method ScanItems(ts: seq<Token>)
      requires Valid() && evalue == 0
      modifies this, vstack, operv, hierv
      ensures Valid() && evalue == 0 && State() == Run(ASSEMBLER, old(State()), ts)
    {
      ghost var start := State();
      for n := 0 to |ts|
        invariant Valid() && evalue == 0
        invariant Run(ASSEMBLER, start, ts) == Run(ASSEMBLER, State(), ts[n..])
      {
        assert ts[n..][1..] == ts[n + 1..];
        Item(ts[n]);
      }
    }

    // EMPOP: the operators that are left at the end of the field.
    method EmptyOperators()
      requires Valid() && evalue == 0
      modifies this, vstack, operv, hierv
      ensures Valid() && evalue == 0 && osp == 0 && Drain(ASSEMBLER, old(State())) == State()
    {
      ghost var start := State();
      while osp != 0
        invariant Valid() && evalue == 0
        invariant Drain(ASSEMBLER, start) == Drain(ASSEMBLER, State())
        decreases osp
      {
        ApplyLast();
      }
    }

    // OPAND: scan the operand field.
    method Scan(ts: seq<Token>)
      requires Valid() && !err
      modifies this, vstack, operv, hierv
      ensures Valid() && evalue == Opand(ASSEMBLER, ts) && err == Failed(Scanned(ASSEMBLER, ts))
    {
      osp, vsp, unary, evalue := 0, 0, true, 0;
      ScanItems(ts);
      EmptyOperators();
      if vsp != 1 {
        err := true;
      }
      if !err {
        evalue := vstack[0];
      }
    }

    // OPAND on the text of any expression of the grammar: EVALUE is the value of its parse tree, or an error is
    // reported and EVALUE stays zero.
    method ScanExpression(e: Expr)
      requires Valid() && !err && InGrammar(e)
      modifies this, vstack, operv, hierv
      ensures Valid() && err == (Meant(ASSEMBLER, e) == Refused)
      ensures evalue == match Meant(ASSEMBLER, e) case Val(v) => v case Refused => 0
    {
      OpandIsEval(ASSEMBLER, e);
      Scan(Tokens(e));
    }
  }
}
