/** Compiled code does what the trees mean: expressions, statements and calls. */
module C4ExprRuns {
  import opened C4Words
  import opened C4Machine
  import opened C4Syntax
  import opened C4Semantics
  import opened C4Steps
  import opened C4Parts
  import opened C4Frames
  import opened Transitions

  /** Every function of the program is compiled at its entry. */
  ghost predicate Placed(code: Code, g: Program) {
    forall k :: k in g ==> TypedStmts(g[k].env, g[k].body) && At(code, k, CompileFunc(g[k], k))
  }

  ghost predicate ExprAt(code: Code, g: Program, env: Env, e: Expr, c: Ctx, m: Mem, fuel: nat, s: State) {
    && Placed(code, g)
    && Typed(env, e)
    && At(code, s.pc, Compile(env, e, s.pc))
    && Rel(c, m, s)
    && Eval(g, env, e, c, s.a, m, fuel).Val?
  }

  ghost predicate AddrAt(code: Code, g: Program, env: Env, e: Expr, c: Ctx, m: Mem, fuel: nat, s: State) {
    && Placed(code, g)
    && Typed(env, e) && Lvalue(env, e)
    && At(code, s.pc, CompileAddr(env, e, s.pc))
    && Rel(c, m, s)
    && EvalAddr(g, env, e, c, s.a, m, fuel).Val?
  }

  /** The machine ends just past a fragment of length `n` with the result `r`. */
  ghost predicate Ends(code: Code, c: Ctx, s: State, t: State, n: nat, r: Res) {
    r.Val? && Goes(code, c, s, t, s.pc + n, r.v, r.m)
  }

  // ----- tails -----

  lemma AluImmRuns(code: Code, c: Ctx, m: Mem, s: State, op: word, n: word) returns (t: State)
    requires At(code, s.pc, [PSH, IMM, n, op]) && IsAlu(op)
    requires Rel(c, m, s) && AluImm(op, c, Val(s.a, m), n).Val?
    ensures Ends(code, c, s, t, 4, AluImm(op, c, Val(s.a, m), n))
  {
    hide Rel, At, Seg, Alu;
    t := StepAluImm(code, c, m, s, op, n);
  }

  /** Scale the accumulator by the word size while the left operand waits in its slot. */
  lemma ScaleThen(code: Code, c: Ctx, m: Mem, s: State, op: word, x: word) returns (t: State)
    requires At(code, s.pc, SCALE + [op]) && op in {ADD, SUB}
    requires Slot(c, s.mem, x) && Rel(Down(c, 1), m, s)
    requires AluImm(MUL, Down(c, 1), Val(s.a, m), 8).Val?
    ensures Ends(code, c, s, t, 5, AluRes(op, x, AluImm(MUL, Down(c, 1), Val(s.a, m), 8).v, m))
  {
    hide Rel, At, Kept, Runs, ReadWord, HoldsWord;
    AtSplit(code, s.pc, SCALE, [op]);
    var s1 := StepAluImm(code, Down(c, 1), m, s, MUL, 8);
    SlotKept(c, s.mem, x, s1.mem);
    t := StepAlu(code, c, m, s1, op, x);
    SegUp(code, c, 1, s, s1);
    SegTrans(code, c, s, s1, t);
  }

  lemma SubDivide(code: Code, c: Ctx, m: Mem, s: State, x: word) returns (t: State)
    requires At(code, s.pc, [SUB, PSH, IMM, 8, DIV])
    requires Slot(c, s.mem, x) && Rel(Down(c, 1), m, s)
    requires AluImm(DIV, c, AluRes(SUB, x, s.a, m), 8).Val?
    ensures Ends(code, c, s, t, 5, AluImm(DIV, c, AluRes(SUB, x, s.a, m), 8))
  {
    hide Rel, At, Kept, Runs, ReadWord, HoldsWord, Quotient;
    assert [SUB, PSH, IMM, 8, DIV] == [SUB] + [PSH, IMM, 8, DIV];
    AtSplit(code, s.pc, [SUB], [PSH, IMM, 8, DIV]);
    var s1 := StepAlu(code, c, m, s, SUB, x);
    t := AluImmRuns(code, c, m, s1, DIV, 8);
    SegTrans(code, c, s, s1, t);
  }

  lemma BinTailRuns(code: Code, c: Ctx, m: Mem, s: State, op: int, tl: int, tr: int, x: word) returns (t: State)
    requires IsBinary(op) && At(code, s.pc, BinTail(op, tl, tr))
    requires Slot(c, s.mem, x) && Rel(Down(c, 1), m, s)
    requires BinRes(op, tl, tr, c, x, Val(s.a, m)).Val?
    ensures Ends(code, c, s, t, |BinTail(op, tl, tr)|, BinRes(op, tl, tr, c, x, Val(s.a, m)))
  {
    hide Rel, At, Seg, ReadWord, HoldsWord, Alu;
    if op == TK_ADD && tl > PTR {
      t := ScaleThen(code, c, m, s, ADD, x);
    } else if op == TK_SUB && tl > PTR && tl == tr {
      t := SubDivide(code, c, m, s, x);
    } else if op == TK_SUB && tl > PTR {
      t := ScaleThen(code, c, m, s, SUB, x);
    } else {
      assert BinTail(op, tl, tr) == [OpCode(op)];
      t := StepAlu(code, c, m, s, OpCode(op), x);
    }
  }

  // ----- expressions -----

  /** PSH and the right operand, from the state `s` in which the left operand is known. */
  lemma {:induction false} OperandRuns(code: Code, g: Program, env: Env, e: Expr, c: Ctx, m: Mem, fuel: nat, s: State)
    returns (t: State)
    requires Placed(code, g) && Typed(env, e) && Rel(c, m, s) && Room(c, 1)
    requires At(code, s.pc, [PSH] + Compile(env, e, s.pc + 1))
    requires Eval(g, env, e, Down(c, 1), s.a, m, fuel).Val?
    ensures Seg(code, c, s, t) && t.pc == s.pc + 1 + |Compile(env, e, s.pc + 1)|
    ensures t.a == Eval(g, env, e, Down(c, 1), s.a, m, fuel).v
    ensures Rel(Down(c, 1), Eval(g, env, e, Down(c, 1), s.a, m, fuel).m, t)
    ensures Slot(c, t.mem, s.a)
    decreases fuel, e, 4
  {
    hide Rel, At, Kept, Runs, Slot, Placed, Typed, Compile, Eval;
    AtSplit(code, s.pc, [PSH], Compile(env, e, s.pc + 1));
    var s1 := StepPush(code, c, m, s);
    t := ExprRuns(code, g, env, e, Down(c, 1), m, fuel, s1);
    SlotKept(c, s1.mem, s.a, t.mem);
    SegUp(code, c, 1, s1, t);
    SegTrans(code, c, s, s1, t);
  }

  lemma BinResVal(op: int, tl: int, tr: int, c: Ctx, x: word, r: Res)
    requires IsBinary(op) && Room(c, 1) && BinRes(op, tl, tr, c, x, r).Val?
    ensures r == Val(r.v, r.m)
  {
    hide Alu;
  }

  /** From the state in which the left operand is known: PSH, the right operand and the operator. */
  lemma {:induction false} RightRuns(code: Code, g: Program, env: Env, e: Expr, op: int, tl: int, tr: int, c: Ctx,
      m: Mem, fuel: nat, s: State) returns (t: State)
    requires Placed(code, g) && Typed(env, e) && Rel(c, m, s) && Room(c, 1) && IsBinary(op)
    requires At(code, s.pc, ([PSH] + Compile(env, e, s.pc + 1)) + BinTail(op, tl, tr))
    requires BinRes(op, tl, tr, c, s.a, Eval(g, env, e, Down(c, 1), s.a, m, fuel)).Val?
    ensures Ends(code, c, s, t, 1 + |Compile(env, e, s.pc + 1)| + |BinTail(op, tl, tr)|,
                 BinRes(op, tl, tr, c, s.a, Eval(g, env, e, Down(c, 1), s.a, m, fuel)))
    decreases fuel, e, 5
  {
    hide Rel, At, Kept, Runs, Slot, Placed, Typed, Compile, CompileAddr, Eval, EvalAddr, Type;
    hide BinRes, BinTail;
    var r := Eval(g, env, e, Down(c, 1), s.a, m, fuel);
    BinResVal(op, tl, tr, c, s.a, r);
    AtSplit(code, s.pc, [PSH] + Compile(env, e, s.pc + 1), BinTail(op, tl, tr));
    var s1 := OperandRuns(code, g, env, e, c, m, fuel, s);
    t := BinTailRuns(code, c, r.m, s1, op, tl, tr, s.a);
    SegTrans(code, c, s, s1, t);
  }

  /** Running the code of an expression from any state ends just past it with its value. */
  lemma {:induction false} ExprRuns(code: Code, g: Program, env: Env, e: Expr, c: Ctx, m: Mem, fuel: nat, s: State)
    returns (t: State)
    requires ExprAt(code, g, env, e, c, m, fuel, s)
    ensures Ends(code, c, s, t, |Compile(env, e, s.pc)|, Eval(g, env, e, c, s.a, m, fuel))
    decreases fuel, e, 3
  {
    match e
    case Var(id) =>
      if Lookup(env, id).cls == TK_NUM {
        t := SimpleRuns(code, g, env, e, c, m, fuel, s);
      } else {
        t := LvalueRuns(code, g, env, e, c, m, fuel, s);
      }
    case Call(_, _) => t := CallRuns(code, g, env, e, c, m, fuel, s);
    case LogNot(_) => t := UnaryRuns(code, g, env, e, c, m, fuel, s);
    case BitNot(_) => t := UnaryRuns(code, g, env, e, c, m, fuel, s);
    case Neg(_) => t := NegRuns(code, g, env, e, c, m, fuel, s);
    case PreInc(_, _) => t := PreIncRuns(code, g, env, e, c, m, fuel, s);
    case PostInc(_, _) => t := PostIncRuns(code, g, env, e, c, m, fuel, s);
    case Assign(_, _) => t := AssignRuns(code, g, env, e, c, m, fuel, s);
    case Cond(_, _, _) => t := CondRuns(code, g, env, e, c, m, fuel, s);
    case Lor(_, _) => t := ShortRuns(code, g, env, e, c, m, fuel, s);
    case Lan(_, _) => t := ShortRuns(code, g, env, e, c, m, fuel, s);
    case Bin(_, _, _) => t := BinRuns(code, g, env, e, c, m, fuel, s);
    case Deref(_) => t := LvalueRuns(code, g, env, e, c, m, fuel, s);
    case Index(_, _) => t := LvalueRuns(code, g, env, e, c, m, fuel, s);
    case _ => t := SimpleRuns(code, g, env, e, c, m, fuel, s);
  }

  /** Constants, variables and the forms that emit no code of their own. */
  lemma {:induction false} SimpleRuns(code: Code, g: Program, env: Env, e: Expr, c: Ctx, m: Mem, fuel: nat, s: State)
    returns (t: State)
    requires ExprAt(code, g, env, e, c, m, fuel, s)
    requires e.Num? || e.NegNum? || e.Str? || e.Sizeof? || (e.Var? && Lookup(env, e.id).cls == TK_NUM)
      || e.Paren? || e.Cast? || e.Plus? || e.AddrOf?
    ensures Ends(code, c, s, t, |Compile(env, e, s.pc)|, Eval(g, env, e, c, s.a, m, fuel))
    decreases fuel, e, 2
  {
    hide Rel, At, Seg, Placed;
    match e
    case Num(n) => t := StepImm(code, c, m, s, n);
    case NegNum(n) => t := StepImm(code, c, m, s, Wrap(0 - n));
    case Str(n, _) => t := StepImm(code, c, m, s, n);
    case Sizeof(i, n) => t := StepImm(code, c, m, s, if Base(i, n) == CHAR then 1 else W);
    case Var(id) => t := StepImm(code, c, m, s, Lookup(env, id).val);
    case Paren(x) => t := ExprRuns(code, g, env, x, c, m, fuel, s);
    case Cast(_, _, x) => t := ExprRuns(code, g, env, x, c, m, fuel, s);
    case Plus(x) => t := ExprRuns(code, g, env, x, c, m, fuel, s);
    case AddrOf(x) => t := AddrRuns(code, g, env, x, c, m, fuel, s);
  }

  /** The address code of an lvalue leaves its address in the accumulator. */
  lemma {:induction false} AddrRuns(code: Code, g: Program, env: Env, e: Expr, c: Ctx, m: Mem, fuel: nat, s: State)
    returns (t: State)
    requires AddrAt(code, g, env, e, c, m, fuel, s)
    ensures Ends(code, c, s, t, |CompileAddr(env, e, s.pc)|, EvalAddr(g, env, e, c, s.a, m, fuel))
    decreases fuel, e, 1
  {
    hide Rel, At, Seg, Placed;
    match e
    case Var(id) =>
      if Lookup(env, id).cls == LOC {
        t := StepLea(code, c, m, s, Wrap(env.loc - Lookup(env, id).val));
      } else {
        t := StepImm(code, c, m, s, Lookup(env, id).val);
      }
    case Deref(x) => t := ExprRuns(code, g, env, x, c, m, fuel, s);
    case Index(_, _) => t := IndexAddrRuns(code, g, env, e, c, m, fuel, s);
    case Paren(x) => t := AddrRuns(code, g, env, x, c, m, fuel, s);
    case Cast(_, _, x) => t := AddrRuns(code, g, env, x, c, m, fuel, s);
    case Plus(x) => t := AddrRuns(code, g, env, x, c, m, fuel, s);
  }

  /** A variable, dereference or index expression: its address, then the load. */
  lemma {:induction false} LvalueRuns(code: Code, g: Program, env: Env, e: Expr, c: Ctx, m: Mem, fuel: nat, s: State)
    returns (t: State)
    requires ExprAt(code, g, env, e, c, m, fuel, s)
    requires (e.Var? && Lookup(env, e.id).cls != TK_NUM) || e.Deref? || e.Index?
    ensures Ends(code, c, s, t, |Compile(env, e, s.pc)|, Eval(g, env, e, c, s.a, m, fuel))
    decreases fuel, e, 2
  {
    hide Rel, At, Kept, Runs, Slot, Placed, Typed, Compile, CompileAddr, Eval, EvalAddr, Type;
    hide Load, Lvalue;
    LvalueParts(g, env, e, c, s.a, m, fuel, s.pc);
    var ca, op := CompileAddr(env, e, s.pc), LoadOp(Type(env, e));
    AtSplit(code, s.pc, ca, [op]);
    var s1 := AddrRuns(code, g, env, e, c, m, fuel, s);
    t := StepLoad(code, c, EvalAddr(g, env, e, c, s.a, m, fuel).m, s1, op);
    SegTrans(code, c, s, s1, t);
  }

  lemma {:induction false} IndexAddrRuns(code: Code, g: Program, env: Env, e: Expr, c: Ctx, m: Mem, fuel: nat, s: State)
    returns (t: State)
    requires AddrAt(code, g, env, e, c, m, fuel, s) && e.Index?
    ensures Ends(code, c, s, t, |CompileAddr(env, e, s.pc)|, EvalAddr(g, env, e, c, s.a, m, fuel))
    decreases fuel, e, 0
  {
    hide Rel, At, Kept, Runs, Slot, Placed, Typed, Compile, CompileAddr, Eval, EvalAddr, Type;
    hide BinRes, BinTail;
    IndexCode(env, e, s.pc);
    IndexValue(g, env, e, c, s.a, m, fuel);
    var cx := Compile(env, e.l, s.pc);
    var tail := BinTail(TK_ADD, Type(env, e.l), INT);
    AtSplit(code, s.pc, cx, ([PSH] + Compile(env, e.r, s.pc + |cx| + 1)) + tail);
    var s1 := ExprRuns(code, g, env, e.l, c, m, fuel, s);
    t := RightRuns(code, g, env, e.r, TK_ADD, Type(env, e.l), INT, c, Eval(g, env, e.l, c, s.a, m, fuel).m, fuel, s1);
    SegTrans(code, c, s, s1, t);
  }

  lemma {:induction false} BinRuns(code: Code, g: Program, env: Env, e: Expr, c: Ctx, m: Mem, fuel: nat, s: State)
    returns (t: State)
    requires ExprAt(code, g, env, e, c, m, fuel, s) && e.Bin?
    ensures Ends(code, c, s, t, |Compile(env, e, s.pc)|, Eval(g, env, e, c, s.a, m, fuel))
    decreases fuel, e, 2
  {
    hide Rel, At, Kept, Runs, Slot, Placed, Typed, Compile, CompileAddr, Eval, EvalAddr, Type;
    hide BinRes, BinTail;
    BinCode(env, e, s.pc);
    BinValue(g, env, e, c, s.a, m, fuel);
    var cx := Compile(env, e.l, s.pc);
    var tail := BinTail(e.op, Type(env, e.l), Type(env, e.r));
    AtSplit(code, s.pc, cx, ([PSH] + Compile(env, e.r, s.pc + |cx| + 1)) + tail);
    var s1 := ExprRuns(code, g, env, e.l, c, m, fuel, s);
    t := RightRuns(code, g, env, e.r, e.op, Type(env, e.l), Type(env, e.r), c, Eval(g, env, e.l, c, s.a, m, fuel).m,
      fuel, s1);
    SegTrans(code, c, s, s1, t);
  }

  lemma {:induction false} UnaryRuns(code: Code, g: Program, env: Env, e: Expr, c: Ctx, m: Mem, fuel: nat, s: State)
    returns (t: State)
    requires ExprAt(code, g, env, e, c, m, fuel, s) && (e.LogNot? || e.BitNot?)
    ensures Ends(code, c, s, t, |Compile(env, e, s.pc)|, Eval(g, env, e, c, s.a, m, fuel))
    decreases fuel, e, 2
  {
    hide Rel, At, Kept, Runs, Slot, Placed, Typed, Compile, CompileAddr, Eval, EvalAddr, Type;
    hide AluImm;
    UnaryParts(g, env, e, c, s.a, m, fuel, s.pc);
    var op, n := if e.LogNot? then EQ else XOR, if e.LogNot? then 0 else -1;
    AtSplit(code, s.pc, Compile(env, e.e, s.pc), [PSH, IMM, n, op]);
    var s1 := ExprRuns(code, g, env, e.e, c, m, fuel, s);
    t := AluImmRuns(code, c, Eval(g, env, e.e, c, s.a, m, fuel).m, s1, op, n);
    SegTrans(code, c, s, s1, t);
  }

  lemma {:induction false} NegRuns(code: Code, g: Program, env: Env, e: Expr, c: Ctx, m: Mem, fuel: nat, s: State)
    returns (t: State)
    requires ExprAt(code, g, env, e, c, m, fuel, s) && e.Neg?
    ensures Ends(code, c, s, t, |Compile(env, e, s.pc)|, Eval(g, env, e, c, s.a, m, fuel))
    decreases fuel, e, 2
  {
    hide Rel, At, Kept, Runs, Slot, Placed, Typed, Compile, CompileAddr, Eval, EvalAddr, Type;
    hide Alu;
    NegParts(g, env, e, c, s.a, m, fuel, s.pc);
    var cx := Compile(env, e.e, s.pc + 3);
    AtSplit(code, s.pc, [IMM, -1], ([PSH] + cx) + [MUL]);
    AtSplit(code, s.pc + 2, [PSH] + cx, [MUL]);
    var s1 := StepImm(code, c, m, s, -1);
    var s2 := OperandRuns(code, g, env, e.e, c, m, fuel, s1);
    t := StepAlu(code, c, Eval(g, env, e.e, Down(c, 1), -1, m, fuel).m, s2, MUL, -1);
    SegTrans(code, c, s, s1, s2);
    SegTrans(code, c, s, s2, t);
  }

  lemma {:induction false} AssignRuns(code: Code, g: Program, env: Env, e: Expr, c: Ctx, m: Mem, fuel: nat, s: State)
    returns (t: State)
    requires ExprAt(code, g, env, e, c, m, fuel, s) && e.Assign?
    ensures Ends(code, c, s, t, |Compile(env, e, s.pc)|, Eval(g, env, e, c, s.a, m, fuel))
    decreases fuel, e, 2
  {
    hide Rel, At, Kept, Runs, Slot, Placed, Typed, Compile, CompileAddr, Eval, EvalAddr, Type;
    hide WriteWord, Lvalue;
    AssignCode(env, e, s.pc);
    AssignValue(g, env, e, c, s.a, m, fuel);
    var cx := CompileAddr(env, e.l, s.pc);
    var cy := Compile(env, e.r, s.pc + |cx| + 1);
    var op := StoreOp(Type(env, e.l));
    AtSplit(code, s.pc, cx, ([PSH] + cy) + [op]);
    AtSplit(code, s.pc + |cx|, [PSH] + cy, [op]);
    var s1 := AddrRuns(code, g, env, e.l, c, m, fuel, s);
    var p := EvalAddr(g, env, e.l, c, s.a, m, fuel);
    var s2 := OperandRuns(code, g, env, e.r, c, p.m, fuel, s1);
    t := StepStore(code, c, Eval(g, env, e.r, Down(c, 1), p.v, p.m, fuel).m, s2, op, p.v);
    SegTrans(code, c, s, s1, s2);
    SegTrans(code, c, s, s2, t);
  }

  // ----- ++ and -- -----

  lemma BumpRuns(code: Code, env: Env, inc: bool, e: Expr, c: Ctx, m: Mem, s: State) returns (t: State)
    requires At(code, s.pc, BumpTail(env, inc, e)) && Rel(c, m, s)
    requires Bump(env, inc, e, c, Val(s.a, m)).Val?
    ensures Ends(code, c, s, t, 7, Bump(env, inc, e, c, Val(s.a, m)))
  {
    hide Rel, At, Kept, Runs, Slot, Type, LastLoad, Alu, Load, WriteWord;
    var ty, ld, op := Type(env, e), LastLoad(env, e), if inc then ADD else SUB;
    LastLoadIsLoad(env, e);
    var rest := [PSH, IMM, Unit(ty), op];
    assert BumpTail(env, inc, e) == [PSH] + ([ld] + (rest + [StoreOp(ty)]));
    AtSplit(code, s.pc, [PSH], [ld] + (rest + [StoreOp(ty)]));
    AtSplit(code, s.pc + 1, [ld], rest + [StoreOp(ty)]);
    AtSplit(code, s.pc + 2, rest, [StoreOp(ty)]);
    var c1 := Down(c, 1);
    var s1 := StepPush(code, c, m, s);
    var s2 := StepLoad(code, c1, m, s1, ld);
    var s3 := StepAluImm(code, c1, m, s2, op, Unit(ty));
    SegTrans(code, c1, s1, s2, s3);
    SlotKept(c, s1.mem, s.a, s3.mem);
    SegUp(code, c, 1, s1, s3);
    t := StepStore(code, c, m, s3, StoreOp(ty), s.a);
    SegTrans(code, c, s, s1, s3);
    SegTrans(code, c, s, s3, t);
  }

  lemma {:induction false} PreIncRuns(code: Code, g: Program, env: Env, e: Expr, c: Ctx, m: Mem, fuel: nat, s: State)
    returns (t: State)
    requires ExprAt(code, g, env, e, c, m, fuel, s) && e.PreInc?
    ensures Ends(code, c, s, t, |Compile(env, e, s.pc)|, Eval(g, env, e, c, s.a, m, fuel))
    decreases fuel, e, 2
  {
    hide Rel, At, Kept, Runs, Slot, Placed, Typed, Compile, CompileAddr, Eval, EvalAddr, Type;
    hide Bump, Lvalue;
    PreIncParts(g, env, e, c, s.a, m, fuel, s.pc);
    AtSplit(code, s.pc, CompileAddr(env, e.e, s.pc), BumpTail(env, e.inc, e.e));
    var s1 := AddrRuns(code, g, env, e.e, c, m, fuel, s);
    t := BumpRuns(code, env, e.inc, e.e, c, EvalAddr(g, env, e.e, c, s.a, m, fuel).m, s1);
    SegTrans(code, c, s, s1, t);
  }

  lemma {:induction false} PostIncRuns(code: Code, g: Program, env: Env, e: Expr, c: Ctx, m: Mem, fuel: nat, s: State)
    returns (t: State)
    requires ExprAt(code, g, env, e, c, m, fuel, s) && e.PostInc?
    ensures Ends(code, c, s, t, |Compile(env, e, s.pc)|, Eval(g, env, e, c, s.a, m, fuel))
    decreases fuel, e, 2
  {
    hide Rel, At, Kept, Runs, Slot, Placed, Typed, Compile, CompileAddr, Eval, EvalAddr, Type;
    hide Bump, Lvalue, AluImm, LastLoad;
    PostIncParts(g, env, e, c, s.a, m, fuel, s.pc);
    var ca, ty := CompileAddr(env, e.e, s.pc), Type(env, e.e);
    var bump, un := BumpTail(env, e.inc, e.e), UnbumpTail(e.inc, ty);
    AtSplit(code, s.pc, ca, bump + un);
    AtSplit(code, s.pc + |ca|, bump, un);
    var s1 := AddrRuns(code, g, env, e.e, c, m, fuel, s);
    var p := EvalAddr(g, env, e.e, c, s.a, m, fuel);
    var s2 := BumpRuns(code, env, e.inc, e.e, c, p.m, s1);
    t := AluImmRuns(code, c, Bump(env, e.inc, e.e, c, p).m, s2, if e.inc then SUB else ADD, Unit(ty));
    SegTrans(code, c, s, s1, s2);
    SegTrans(code, c, s, s2, t);
  }

  // ----- branches -----

  /** Where the three parts of a short-circuit stand. */
  lemma ShortLaid(code: Code, k: int, cx: Code, branch: Code, cy: Code)
    requires At(code, k, cx + branch + cy) && |branch| == 2
    ensures At(code, k, cx) && At(code, k + |cx|, branch) && At(code, k + |cx| + 2, cy)
    ensures 0 <= k && k + |cx| + 2 + |cy| < TWO63 && |cx + branch + cy| == |cx| + 2 + |cy|
  {
    hide At;
    Assoc3(cx, branch, cy);
    AtBound(code, k, cx + branch + cy);
    AtSplit(code, k, cx, branch + cy);
    AtSplit(code, k + |cx|, branch, cy);
  }

  lemma {:induction false} ShortRuns(code: Code, g: Program, env: Env, e: Expr, c: Ctx, m: Mem, fuel: nat, s: State)
    returns (t: State)
    requires ExprAt(code, g, env, e, c, m, fuel, s) && (e.Lor? || e.Lan?)
    ensures Ends(code, c, s, t, |Compile(env, e, s.pc)|, Eval(g, env, e, c, s.a, m, fuel))
    decreases fuel, e, 2
  {
    hide Rel, Seg, At, Kept, Runs, Slot, Placed, Typed, Compile, CompileAddr, Eval, EvalAddr, Type;
    BranchTyped(env, e);
    ShortCode(env, e, s.pc);
    ShortValue(g, env, e, c, s.a, m, fuel);
    var op := if e.Lor? then BNZ else BZ;
    var cx := Compile(env, e.l, s.pc);
    var cy := Compile(env, e.r, s.pc + |cx| + 2);
    var branch := [op, Wrap(s.pc + |cx| + 2 + |cy|)];
    ShortLaid(code, s.pc, cx, branch, cy);
    var r := Eval(g, env, e.l, c, s.a, m, fuel);
    var s1 := ExprRuns(code, g, env, e.l, c, m, fuel, s);
    var s2 := StepBranch(code, c, r.m, s1, op, branch[1]);
    SegTrans(code, c, s, s1, s2);
    if (r.v != 0) == e.Lor? {
      t := s2;
    } else {
      t := ExprRuns(code, g, env, e.r, c, r.m, fuel, s2);
      SegTrans(code, c, s, s2, t);
    }
  }

  /** Where the five parts of a two-way branch stand. */
  lemma ForkLaid(code: Code, k: int, cx: Code, bz: Code, cy: Code, jmp: Code, cz: Code)
    requires At(code, k, cx + bz + cy + jmp + cz) && |bz| == |jmp| == 2
    ensures At(code, k, cx) && At(code, k + |cx|, bz) && At(code, k + |cx| + 2, cy)
    ensures At(code, k + |cx| + 2 + |cy|, jmp) && At(code, k + |cx| + 2 + |cy| + 2, cz)
    ensures 0 <= k && k + |cx| + 2 + |cy| + 2 + |cz| < TWO63
    ensures |cx + bz + cy + jmp + cz| == |cx| + 2 + |cy| + 2 + |cz|
  {
    hide At;
    Assoc5(cx, bz, cy, jmp, cz);
    AtBound(code, k, cx + bz + cy + jmp + cz);
    AtSplit(code, k, cx, bz + (cy + (jmp + cz)));
    AtSplit(code, k + |cx|, bz, cy + (jmp + cz));
    AtSplit(code, k + |cx| + 2, cy, jmp + cz);
    AtSplit(code, k + |cx| + 2 + |cy|, jmp, cz);
  }

  lemma {:induction false} CondRuns(code: Code, g: Program, env: Env, e: Expr, c: Ctx, m: Mem, fuel: nat, s: State)
    returns (t: State)
    requires ExprAt(code, g, env, e, c, m, fuel, s) && e.Cond?
    ensures Ends(code, c, s, t, |Compile(env, e, s.pc)|, Eval(g, env, e, c, s.a, m, fuel))
    decreases fuel, e, 2
  {
    hide Rel, Seg, At, Kept, Runs, Slot, Placed, Typed, Compile, CompileAddr, Eval, EvalAddr, Type;
    BranchTyped(env, e);
    CondCode(env, e, s.pc);
    CondValue(g, env, e, c, s.a, m, fuel);
    var cx := Compile(env, e.c, s.pc);
    var cy := Compile(env, e.l, s.pc + |cx| + 2);
    var other := s.pc + |cx| + 2 + |cy| + 2;
    var cz := Compile(env, e.r, other);
    var bz, jmp := [BZ, Wrap(other)], [JMP, Wrap(other + |cz|)];
    ForkLaid(code, s.pc, cx, bz, cy, jmp, cz);
    var r := Eval(g, env, e.c, c, s.a, m, fuel);
    var s1 := ExprRuns(code, g, env, e.c, c, m, fuel, s);
    var s2 := StepBranch(code, c, r.m, s1, BZ, bz[1]);
    SegTrans(code, c, s, s1, s2);
    if r.v != 0 {
      var s3 := ExprRuns(code, g, env, e.l, c, r.m, fuel, s2);
      t := StepJmp(code, c, Eval(g, env, e.l, c, r.v, r.m, fuel).m, s3, jmp[1]);
      SegTrans(code, c, s, s2, s3);
      SegTrans(code, c, s, s3, t);
    } else {
      t := ExprRuns(code, g, env, e.r, c, r.m, fuel, s2);
      SegTrans(code, c, s, s2, t);
    }
  }

  // ----- calls -----

  /** Each argument is evaluated and pushed, first to last. */
  lemma {:induction false} ArgsRuns(code: Code, g: Program, env: Env, args: Args, c: Ctx, m: Mem, fuel: nat, s: State)
    returns (t: State)
    requires Placed(code, g) && TypedArgs(env, args) && Rel(c, m, s)
    requires At(code, s.pc, CompileArgs(env, args, s.pc))
    requires EvalArgs(g, env, args, c, s.a, m, fuel).Vals?
    ensures Seg(code, c, s, t) && t.pc == s.pc + |CompileArgs(env, args, s.pc)|
    ensures var r := EvalArgs(g, env, args, c, s.a, m, fuel);
      && |r.vs| == Count(args) && Room(c, |r.vs|) && t.a == r.v
      && Rel(Down(c, |r.vs|), r.m, t) && ArgsStored(c, t.mem, r.vs)
    decreases fuel, args, 1
  {
    match args
    case NoArgs =>
      RunsHere(code, c, s);
      t := s;
      assert Down(c, 0) == c;
    case Arg(x, rest) => t := ArgRuns(code, g, env, args, x, rest, c, m, fuel, s);
  }

  lemma RunsHere(code: Code, c: Ctx, s: State)
    ensures Seg(code, c, s, s)
  {
    ReachHere(Stepper(code), s);
  }

  lemma {:induction false} ArgRuns(code: Code, g: Program, env: Env, args: Args, x: Expr, rest: Args, c: Ctx, m: Mem,
      fuel: nat, s: State) returns (t: State)
    requires args == Arg(x, rest)
    requires Placed(code, g) && Typed(env, x) && TypedArgs(env, rest) && Rel(c, m, s)
    requires At(code, s.pc, CompileArgs(env, args, s.pc))
    requires EvalArgs(g, env, args, c, s.a, m, fuel).Vals?
    ensures Seg(code, c, s, t) && t.pc == s.pc + |CompileArgs(env, args, s.pc)|
    ensures var r := EvalArgs(g, env, args, c, s.a, m, fuel);
      && |r.vs| == 1 + Count(rest) && Room(c, |r.vs|) && t.a == r.v
      && Rel(Down(c, |r.vs|), r.m, t) && ArgsStored(c, t.mem, r.vs)
    decreases fuel, args, 0
  {
    hide Rel, At, Kept, Runs, Slot, Placed, Typed, Compile, CompileAddr, Eval, EvalAddr, Type;
    hide TypedArgs, CompileArgs, EvalArgs;
    ArgCode(env, x, rest, s.pc);
    ArgValue(g, env, x, rest, c, s.a, m, fuel);
    var cx := Compile(env, x, s.pc);
    var crest := CompileArgs(env, rest, s.pc + |cx| + 1);
    AtSplit(code, s.pc, cx, [PSH] + crest);
    AtSplit(code, s.pc + |cx|, [PSH], crest);
    var r := Eval(g, env, x, c, s.a, m, fuel);
    var s1 := ExprRuns(code, g, env, x, c, m, fuel, s);
    var s2 := StepPush(code, c, r.m, s1);
    t := ArgsRuns(code, g, env, rest, Down(c, 1), r.m, fuel, s2);
    var rs := EvalArgs(g, env, rest, Down(c, 1), r.v, r.m, fuel);
    SlotKept(c, s2.mem, r.v, t.mem);
    SegTrans(code, c, s, s1, s2);
    SegUp(code, c, 1, s2, t);
    SegTrans(code, c, s, s2, t);
    assert ([r.v] + rs.vs)[1..] == rs.vs;
    assert Down(Down(c, 1), |rs.vs|) == Down(c, 1 + |rs.vs|);
  }

  lemma {:induction false} CallRuns(code: Code, g: Program, env: Env, e: Expr, c: Ctx, m: Mem, fuel: nat, s: State)
    returns (t: State)
    requires ExprAt(code, g, env, e, c, m, fuel, s) && e.Call?
    ensures Ends(code, c, s, t, |Compile(env, e, s.pc)|, Eval(g, env, e, c, s.a, m, fuel))
    decreases fuel, e, 2
  {
    hide Rel, At, Kept, Runs, Slot, Placed, Typed, Compile, CompileAddr, Eval, EvalAddr, Type;
    hide TypedArgs, CompileArgs, EvalArgs, EvalCall, ArgsStored;
    CallParts(g, env, e, c, s.a, m, fuel, s.pc);
    RelBounds(c, m, s);
    var k, r := Lookup(env, e.id).val, EvalArgs(g, env, e.args, c, s.a, m, fuel);
    var jsr, adj: Code := [JSR, k], if Count(e.args) > 0 then [ADJ, Wrap(Count(e.args))] else [];
    AtSplit(code, s.pc, CompileArgs(env, e.args, s.pc), jsr + adj);
    AtSplit(code, s.pc + |CompileArgs(env, e.args, s.pc)|, jsr, adj);
    var s1 := ArgsRuns(code, g, env, e.args, c, m, fuel, s);
    var s2 := CalleeRuns(code, g, k, c, r.vs, r.m, fuel - 1, s1);
    SegTrans(code, c, s, s1, s2);
    var v := EvalCall(g, g[k], r.vs, c, r.v, r.m, fuel - 1);
    if Count(e.args) > 0 {
      t := StepAdj(code, c, v.m, s2, r.vs, s1.mem);
      SegTrans(code, c, s, s2, t);
    } else {
      t := s2;
      assert Down(c, 0) == c;
    }
  }

  lemma RelBounds(c: Ctx, m: Mem, s: State)
    requires Rel(c, m, s)
    ensures -TWO63 <= c.lo <= c.sp && c.bp == s.bp && c.sp == s.sp
  {
  }

  lemma PlacedFunc(code: Code, g: Program, k: int)
    requires Placed(code, g) && k in g
    ensures TypedStmts(g[k].env, g[k].body)
    ensures At(code, k, [ENT, Wrap(g[k].locals)])
    ensures At(code, k + 2, CompileStmts(g[k].env, g[k].body, k + 2))
    ensures At(code, k + 2 + |CompileStmts(g[k].env, g[k].body, k + 2)|, [LEV])
  {
    hide At, CompileStmts, TypedStmts, Wrap;
    var ent, body := [ENT, Wrap(g[k].locals)], CompileStmts(g[k].env, g[k].body, k + 2);
    Assoc3(ent, body, [LEV]);
    AtSplit(code, k, ent, body + [LEV]);
    AtSplit(code, k + 2, body, [LEV]);
  }

  /** From JSR to just past it: the callee's frame is built, its body run and the frame left. */
  lemma {:induction false} CalleeRuns(code: Code, g: Program, k: word, c: Ctx, vs: seq<word>, m: Mem, fuel: nat,
      s: State) returns (t: State)
    requires Placed(code, g) && k in g && c.lo <= c.sp
    requires Room(c, |vs|) && Rel(Down(c, |vs|), m, s) && ArgsStored(c, s.mem, vs)
    requires At(code, s.pc, [JSR, k])
    requires EvalCall(g, g[k], vs, c, s.a, m, fuel).Val?
    ensures Seg(code, c, s, t) && t.pc == s.pc + 2 && t.mem.Keys == s.mem.Keys
    ensures t.a == EvalCall(g, g[k], vs, c, s.a, m, fuel).v
    ensures Rel(Down(c, |vs|), EvalCall(g, g[k], vs, c, s.a, m, fuel).m, t)
    decreases fuel, g[k].body, 2
  {
    hide Rel, At, Kept, Runs, Slot, Placed, Typed, TypedStmt, TypedStmts, Compile, CompileStmt, CompileStmts, Eval,
      Exec, ExecAll;
    hide EvalCall, ArgsStored, PutArgs, Restrict, Range, ReadWord;
    var f := g[k];
    CallValue(g, f, vs, c, s.a, m, fuel);
    PlacedFunc(code, g, k);
    GiveArgs(c, m, s, vs);
    var d, give, m1 := CalleeCtx(f, c), Give(c, f.params), PutArgs(m, c.sp, vs);
    AtBound(code, s.pc, [JSR, k]);
    var s1 := StepJsr(code, give, m1, s, k);
    var s2 := StepEnt(code, f, c, m1, s1);
    SlotKept(give, s1.mem, s.pc + 2, s2.mem);
    var s3 := StmtsRuns(code, g, f.env, f.body, d, m1, fuel, s2);
    t := CalleeLeaves(code, f, c, m, s, ExecAll(g, f.env, f.body, d, s.a, m1, fuel), s1, s2, s3);
  }

  lemma CalleeLeaves(code: Code, f: Func, c: Ctx, m: Mem, s: State, r: StmtRes, s1: State, s2: State, s3: State)
    returns (t: State)
    requires !r.StmtStuck? && Room(c, f.params + 2 + f.locals) && c.lo <= c.sp && -TWO63 <= s.pc < TWO63 - 2
    requires Rel(Down(c, f.params), m, s)
    requires Seg(code, Give(c, f.params), s, s1)
    requires Runs(code, s1, s2) && Kept(Down(Give(c, f.params), 1), s1.mem, s2.mem)
    requires Slot(Give(c, f.params), s2.mem, s.pc + 2) && Slot(Down(Give(c, f.params), 1), s2.mem, c.bp)
    requires Seg(code, CalleeCtx(f, c), s2, s3) && Rel(CalleeCtx(f, c), r.m, s3) && At(code, s3.pc, [LEV])
      && s3.a == r.v
    ensures Seg(code, c, s, t) && t.pc == s.pc + 2 && t.a == r.v && t.mem.Keys == s.mem.Keys
    ensures Rel(Down(c, f.params), Restrict(r.m, c.own), t)
  {
    hide Rel, At, Runs, Slot, Restrict, Range, ReadWord;
    KeptSteps(f, c, s, s1, s2, s3);
    CalleeArea(f, c, m, s, s3.mem);
    SavedKept(f, c, s2.mem, s3.mem, s.pc + 2);
    RelBounds(CalleeCtx(f, c), r.m, s3);
    t := StepLev(code, f, c, r.m, s3, s.pc + 2);
    RunsTrans(code, s, s1, s2);
    RunsTrans(code, s, s2, s3);
    RunsTrans(code, s, s3, t);
  }

  lemma KeptSteps(f: Func, c: Ctx, s: State, s1: State, s2: State, s3: State)
    requires Room(c, f.params + 2 + f.locals) && c.lo <= c.sp
    requires Kept(Give(c, f.params), s.mem, s1.mem)
    requires Kept(Down(Give(c, f.params), 1), s1.mem, s2.mem)
    requires Kept(CalleeCtx(f, c), s2.mem, s3.mem)
    ensures Kept(c, s.mem, s3.mem) && s.mem.Keys == s3.mem.Keys
  {
    KeptGive(c, f.params, 0, s.mem, s1.mem);
    KeptGive(c, f.params, 1, s1.mem, s2.mem);
    KeptCallee(f, c, s2.mem, s3.mem);
    KeptTrans(c, s.mem, s1.mem, s2.mem);
    KeptTrans(c, s.mem, s2.mem, s3.mem);
  }

  // ----- statements -----

  /** A statement ends just past its code, or at an LEV when it returns. */
  ghost predicate StmtEnds(code: Code, c: Ctx, s: State, t: State, n: nat, r: StmtRes) {
    && !r.StmtStuck?
    && Seg(code, c, s, t) && t.a == r.v && Rel(c, r.m, t)
    && (r.Normal? ==> t.pc == s.pc + n)
    && (r.Returned? ==> At(code, t.pc, [LEV]))
  }

  ghost predicate StmtAt(code: Code, g: Program, env: Env, st: Stmt, c: Ctx, m: Mem, fuel: nat, s: State) {
    && Placed(code, g)
    && TypedStmt(env, st)
    && At(code, s.pc, CompileStmt(env, st, s.pc))
    && Rel(c, m, s)
    && !Exec(g, env, st, c, s.a, m, fuel).StmtStuck?
  }

  /** Compiled statements simulate the structured meaning, for any nesting and any number of iterations. */
  lemma {:induction false} StmtRuns(code: Code, g: Program, env: Env, st: Stmt, c: Ctx, m: Mem, fuel: nat, s: State)
    returns (t: State)
    requires StmtAt(code, g, env, st, c, m, fuel, s)
    ensures StmtEnds(code, c, s, t, |CompileStmt(env, st, s.pc)|, Exec(g, env, st, c, s.a, m, fuel))
    decreases fuel, st, 1
  {
    hide Rel, Seg, At, Placed, Typed, Eval, Compile;
    match st
    case If(_, _) => t := IfRuns(code, g, env, st, c, m, fuel, s);
    case IfElse(_, _, _) => t := IfElseRuns(code, g, env, st, c, m, fuel, s);
    case While(_, _) => t := WhileRuns(code, g, env, st, c, m, fuel, s);
    case Return => t := s; RunsHere(code, c, s);
    case ReturnExpr(e) =>
      AtSplit(code, s.pc, Compile(env, e, s.pc), [LEV]);
      t := ExprRuns(code, g, env, e, c, m, fuel, s);
    case Block(ss) => t := StmtsRuns(code, g, env, ss, c, m, fuel, s);
    case Empty => t := s; RunsHere(code, c, s);
    case ExprStmt(e) => t := ExprRuns(code, g, env, e, c, m, fuel, s);
  }

  lemma {:induction false} StmtsRuns(code: Code, g: Program, env: Env, ss: Stmts, c: Ctx, m: Mem, fuel: nat, s: State)
    returns (t: State)
    requires Placed(code, g) && TypedStmts(env, ss) && Rel(c, m, s)
    requires At(code, s.pc, CompileStmts(env, ss, s.pc))
    requires !ExecAll(g, env, ss, c, s.a, m, fuel).StmtStuck?
    ensures StmtEnds(code, c, s, t, |CompileStmts(env, ss, s.pc)|, ExecAll(g, env, ss, c, s.a, m, fuel))
    decreases fuel, ss, 0
  {
    hide Rel, Seg, At, Placed, TypedStmt, Exec, CompileStmt;
    match ss
    case NoStmts => t := s; RunsHere(code, c, s);
    case Then(st, rest) =>
      ThenCode(env, st, rest, s.pc);
      ThenValue(g, env, st, rest, c, s.a, m, fuel);
      var cs := CompileStmt(env, st, s.pc);
      AtSplit(code, s.pc, cs, CompileStmts(env, rest, s.pc + |cs|));
      var r := Exec(g, env, st, c, s.a, m, fuel);
      t := StmtRuns(code, g, env, st, c, m, fuel, s);
      if r.Normal? {
        var s1 := t;
        t := StmtsRuns(code, g, env, rest, c, r.m, fuel, s1);
        SegTrans(code, c, s, s1, t);
      }
  }

  lemma {:induction false} IfRuns(code: Code, g: Program, env: Env, st: Stmt, c: Ctx, m: Mem, fuel: nat, s: State)
    returns (t: State)
    requires StmtAt(code, g, env, st, c, m, fuel, s) && st.If?
    ensures StmtEnds(code, c, s, t, |CompileStmt(env, st, s.pc)|, Exec(g, env, st, c, s.a, m, fuel))
    decreases fuel, st, 0
  {
    hide Rel, At, Kept, Runs, Slot, Placed, Typed, TypedStmt, TypedStmts, Compile, CompileStmt, CompileStmts, Eval,
      Exec, ExecAll;
    IfCode(env, st, s.pc);
    BranchValue(g, env, st, c, s.a, m, fuel);
    var ce := Compile(env, st.c, s.pc);
    var ct := CompileStmt(env, st.t, s.pc + |ce| + 2);
    var bz := [BZ, Wrap(s.pc + |ce| + 2 + |ct|)];
    Assoc3(ce, bz, ct);
    AtBound(code, s.pc, ce + bz + ct);
    AtSplit(code, s.pc, ce, bz + ct);
    AtSplit(code, s.pc + |ce|, bz, ct);
    var r := Eval(g, env, st.c, c, s.a, m, fuel);
    var s1 := ExprRuns(code, g, env, st.c, c, m, fuel, s);
    var s2 := StepBranch(code, c, r.m, s1, BZ, bz[1]);
    SegTrans(code, c, s, s1, s2);
    t := s2;
    if r.v != 0 {
      t := StmtRuns(code, g, env, st.t, c, r.m, fuel, s2);
      SegTrans(code, c, s, s2, t);
    }
  }

  lemma {:induction false} IfElseRuns(code: Code, g: Program, env: Env, st: Stmt, c: Ctx, m: Mem, fuel: nat, s: State)
    returns (t: State)
    requires StmtAt(code, g, env, st, c, m, fuel, s) && st.IfElse?
    ensures StmtEnds(code, c, s, t, |CompileStmt(env, st, s.pc)|, Exec(g, env, st, c, s.a, m, fuel))
    decreases fuel, st, 0
  {
    hide Rel, Seg, At, Kept, Runs, Slot, Placed, Typed, TypedStmt, TypedStmts, Compile, CompileStmt, CompileStmts,
      Eval, Exec, ExecAll;
    IfElseCode(env, st, s.pc);
    BranchValue(g, env, st, c, s.a, m, fuel);
    var ce := Compile(env, st.c, s.pc);
    var ct := CompileStmt(env, st.t, s.pc + |ce| + 2);
    var other := s.pc + |ce| + 2 + |ct| + 2;
    var cf := CompileStmt(env, st.f, other);
    var bz, jmp := [BZ, Wrap(other)], [JMP, Wrap(other + |cf|)];
    ForkLaid(code, s.pc, ce, bz, ct, jmp, cf);
    var r := Eval(g, env, st.c, c, s.a, m, fuel);
    var s1 := ExprRuns(code, g, env, st.c, c, m, fuel, s);
    var s2 := StepBranch(code, c, r.m, s1, BZ, bz[1]);
    SegTrans(code, c, s, s1, s2);
    if r.v != 0 {
      var q := Exec(g, env, st.t, c, r.v, r.m, fuel);
      var s3 := StmtRuns(code, g, env, st.t, c, r.m, fuel, s2);
      SegTrans(code, c, s, s2, s3);
      t := s3;
      if q.Normal? {
        t := StepJmp(code, c, q.m, s3, jmp[1]);
        SegTrans(code, c, s, s3, t);
      }
    } else {
      t := StmtRuns(code, g, env, st.f, c, r.m, fuel, s2);
      SegTrans(code, c, s, s2, t);
    }
  }

  /** Where the four parts of a loop stand. */
  lemma WhileLaid(code: Code, k: int, ce: Code, bz: Code, ct: Code, jmp: Code)
    requires At(code, k, ce + bz + ct + jmp) && |bz| == |jmp| == 2
    ensures At(code, k, ce) && At(code, k + |ce|, bz) && At(code, k + |ce| + 2, ct)
      && At(code, k + |ce| + 2 + |ct|, jmp)
    ensures 0 <= k && k + |ce| + 2 + |ct| + 2 < TWO63 && |ce + bz + ct + jmp| == |ce| + 2 + |ct| + 2
  {
    hide At;
    Assoc4'(ce, bz, ct, jmp);
    AtBound(code, k, ce + bz + ct + jmp);
    AtSplit(code, k, ce, bz + (ct + jmp));
    AtSplit(code, k + |ce|, bz, ct + jmp);
    AtSplit(code, k + |ce| + 2, ct, jmp);
  }

  lemma {:induction false} WhileRuns(code: Code, g: Program, env: Env, st: Stmt, c: Ctx, m: Mem, fuel: nat, s: State)
    returns (t: State)
    requires StmtAt(code, g, env, st, c, m, fuel, s) && st.While?
    ensures StmtEnds(code, c, s, t, |CompileStmt(env, st, s.pc)|, Exec(g, env, st, c, s.a, m, fuel))
    decreases fuel, st, 0
  {
    hide Rel, Seg, At, Kept, Runs, Slot, Placed, Typed, TypedStmt, TypedStmts, Compile, CompileStmt, CompileStmts,
      Eval, Exec, ExecAll;
    WhileCode(env, st, s.pc);
    WhileValue(g, env, st, c, s.a, m, fuel);
    var ce := Compile(env, st.c, s.pc);
    var ct := CompileStmt(env, st.t, s.pc + |ce| + 2);
    var bz, jmp := [BZ, Wrap(s.pc + |ce| + 2 + |ct| + 2)], [JMP, Wrap(s.pc)];
    WhileLaid(code, s.pc, ce, bz, ct, jmp);
    var r := Eval(g, env, st.c, c, s.a, m, fuel);
    var s1 := ExprRuns(code, g, env, st.c, c, m, fuel, s);
    var s2 := StepBranch(code, c, r.m, s1, BZ, bz[1]);
    SegTrans(code, c, s, s1, s2);
    t := s2;
    if r.v != 0 {
      var q := Exec(g, env, st.t, c, r.v, r.m, fuel);
      var s3 := StmtRuns(code, g, env, st.t, c, r.m, fuel, s2);
      SegTrans(code, c, s, s2, s3);
      t := s3;
      if q.Normal? {
        var s4 := StepJmp(code, c, q.m, s3, jmp[1]);
        SegTrans(code, c, s, s3, s4);
        t := StmtRuns(code, g, env, st, c, q.m, fuel - 1, s4);
        SegTrans(code, c, s, s4, t);
      }
    }
  }
}
