/** One-step unfoldings of the compile and of the meaning of each kind of tree. */
module C4Parts {
  import opened C4Words
  import opened C4Machine
  import opened C4Syntax
  import opened C4Semantics

  lemma Assoc3(p: Code, q: Code, r: Code)
    ensures p + q + r == p + (q + r)
  {
  }

  lemma Assoc4(p: Code, q: Code, r: Code, t: Code)
    ensures p + q + r + t == p + ((q + r) + t)
  {
  }

  lemma Assoc4'(p: Code, q: Code, r: Code, t: Code)
    ensures p + q + r + t == p + (q + (r + t))
  {
  }

  lemma Assoc5(p: Code, q: Code, r: Code, t: Code, u: Code)
    ensures p + q + r + t + u == p + (q + (r + (t + u)))
  {
  }

  lemma BinCode(env: Env, e: Expr, k: int)
    requires e.Bin? && Typed(env, e)
    ensures Typed(env, e.l) && Typed(env, e.r) && IsBinary(e.op)
    ensures var cx := Compile(env, e.l, k);
      Compile(env, e, k) == cx + (([PSH] + Compile(env, e.r, k + |cx| + 1)) + BinTail(e.op, Type(env, e.l),
        Type(env, e.r)))
  {
    hide CompileAddr, CompileArgs, Type, Lvalue, BinTail, BumpTail, UnbumpTail, CallTail, Wrap, Lookup;
    var cx := Compile(env, e.l, k);
    Assoc4(cx, [PSH], Compile(env, e.r, k + |cx| + 1), BinTail(e.op, Type(env, e.l), Type(env, e.r)));
  }

  lemma BinValue(g: Program, env: Env, e: Expr, c: Ctx, a: word, m: Mem, fuel: nat)
    requires e.Bin? && Eval(g, env, e, c, a, m, fuel).Val?
    ensures Eval(g, env, e.l, c, a, m, fuel).Val? && Room(c, 1) && IsBinary(e.op)
    ensures var r := Eval(g, env, e.l, c, a, m, fuel);
      Eval(g, env, e, c, a, m, fuel)
        == BinRes(e.op, Type(env, e.l), Type(env, e.r), c, r.v, Eval(g, env, e.r, Down(c, 1), r.v, r.m, fuel))
  {
    hide BinRes, Type;
  }

  lemma IndexCode(env: Env, e: Expr, k: int)
    requires e.Index? && Typed(env, e)
    ensures Typed(env, e.l) && Typed(env, e.r)
    ensures var cx := Compile(env, e.l, k);
      CompileAddr(env, e, k) == cx + (([PSH] + Compile(env, e.r, k + |cx| + 1)) + BinTail(TK_ADD, Type(env, e.l), INT))
  {
    hide Compile, Type, Lookup;
    var cx := Compile(env, e.l, k);
    Assoc4(cx, [PSH], Compile(env, e.r, k + |cx| + 1), IndexTail(Type(env, e.l)));
  }

  lemma IndexValue(g: Program, env: Env, e: Expr, c: Ctx, a: word, m: Mem, fuel: nat)
    requires e.Index? && EvalAddr(g, env, e, c, a, m, fuel).Val?
    ensures Eval(g, env, e.l, c, a, m, fuel).Val? && Room(c, 1)
    ensures var r := Eval(g, env, e.l, c, a, m, fuel);
      EvalAddr(g, env, e, c, a, m, fuel)
        == BinRes(TK_ADD, Type(env, e.l), INT, c, r.v, Eval(g, env, e.r, Down(c, 1), r.v, r.m, fuel))
  {
    hide BinRes, Type, Eval;
  }

  lemma LastLoadIsLoad(env: Env, e: Expr)
    ensures LastLoad(env, e) in {LI, LC}
  {
  }

  /** Variables, dereferences and index expressions: an address and a load. */
  lemma LvalueParts(g: Program, env: Env, e: Expr, c: Ctx, a: word, m: Mem, fuel: nat, k: int)
    requires (e.Var? && Lookup(env, e.id).cls != TK_NUM) || e.Deref? || e.Index?
    requires Typed(env, e) && Eval(g, env, e, c, a, m, fuel).Val?
    ensures Lvalue(env, e) && EvalAddr(g, env, e, c, a, m, fuel).Val?
    ensures Compile(env, e, k) == CompileAddr(env, e, k) + [LoadOp(Type(env, e))]
    ensures var p := EvalAddr(g, env, e, c, a, m, fuel);
      Eval(g, env, e, c, a, m, fuel) == LoadRes(LoadOp(Type(env, e)), p.m, p.v)
  {
  }

  lemma UnaryParts(g: Program, env: Env, e: Expr, c: Ctx, a: word, m: Mem, fuel: nat, k: int)
    requires e.LogNot? || e.BitNot?
    requires Typed(env, e) && Eval(g, env, e, c, a, m, fuel).Val?
    ensures Typed(env, e.e) && Eval(g, env, e.e, c, a, m, fuel).Val?
    ensures var (op, n) := if e.LogNot? then (EQ, 0) else (XOR, -1);
      && Compile(env, e, k) == Compile(env, e.e, k) + [PSH, IMM, n, op]
      && Eval(g, env, e, c, a, m, fuel) == AluImm(op, c, Eval(g, env, e.e, c, a, m, fuel), n)
  {
    hide Alu;
  }

  lemma NegParts(g: Program, env: Env, e: Expr, c: Ctx, a: word, m: Mem, fuel: nat, k: int)
    requires e.Neg? && Typed(env, e) && Eval(g, env, e, c, a, m, fuel).Val?
    ensures Typed(env, e.e) && Room(c, 1) && Eval(g, env, e.e, Down(c, 1), -1, m, fuel).Val?
    ensures Compile(env, e, k) == [IMM, -1] + (([PSH] + Compile(env, e.e, k + 3)) + [MUL])
    ensures var r := Eval(g, env, e.e, Down(c, 1), -1, m, fuel);
      Eval(g, env, e, c, a, m, fuel) == AluRes(MUL, -1, r.v, r.m)
  {
    hide Alu;
  }

  lemma AssignCode(env: Env, e: Expr, k: int)
    requires e.Assign? && Typed(env, e)
    ensures Typed(env, e.l) && Lvalue(env, e.l) && Typed(env, e.r)
    ensures var cx := CompileAddr(env, e.l, k);
      Compile(env, e, k) == cx + (([PSH] + Compile(env, e.r, k + |cx| + 1)) + [StoreOp(Type(env, e.l))])
  {
    hide CompileAddr, CompileArgs, Type, Lvalue, BinTail, BumpTail, UnbumpTail, CallTail, Wrap, Lookup;
    var cx := CompileAddr(env, e.l, k);
    Assoc4(cx, [PSH], Compile(env, e.r, k + |cx| + 1), [StoreOp(Type(env, e.l))]);
  }

  lemma AssignValue(g: Program, env: Env, e: Expr, c: Ctx, a: word, m: Mem, fuel: nat)
    requires e.Assign? && Eval(g, env, e, c, a, m, fuel).Val?
    ensures EvalAddr(g, env, e.l, c, a, m, fuel).Val? && Room(c, 1)
    ensures var p := EvalAddr(g, env, e.l, c, a, m, fuel);
      var r := Eval(g, env, e.r, Down(c, 1), p.v, p.m, fuel);
      && r.Val?
      && Eval(g, env, e, c, a, m, fuel) == StoreRes(StoreOp(Type(env, e.l)), c.own, r.m, p.v, r.v)
  {
    hide StoreRes, Type, EvalAddr;
  }

  lemma PreIncParts(g: Program, env: Env, e: Expr, c: Ctx, a: word, m: Mem, fuel: nat, k: int)
    requires e.PreInc? && Typed(env, e) && Eval(g, env, e, c, a, m, fuel).Val?
    ensures Typed(env, e.e) && Lvalue(env, e.e) && EvalAddr(g, env, e.e, c, a, m, fuel).Val?
    ensures Compile(env, e, k) == CompileAddr(env, e.e, k) + BumpTail(env, e.inc, e.e)
    ensures Eval(g, env, e, c, a, m, fuel) == Bump(env, e.inc, e.e, c, EvalAddr(g, env, e.e, c, a, m, fuel))
  {
    hide Alu;
  }

  lemma PostIncParts(g: Program, env: Env, e: Expr, c: Ctx, a: word, m: Mem, fuel: nat, k: int)
    requires e.PostInc? && Typed(env, e) && Eval(g, env, e, c, a, m, fuel).Val?
    ensures Typed(env, e.e) && Lvalue(env, e.e) && EvalAddr(g, env, e.e, c, a, m, fuel).Val?
    ensures Compile(env, e, k)
         == CompileAddr(env, e.e, k) + (BumpTail(env, e.inc, e.e) + UnbumpTail(e.inc, Type(env, e.e)))
    ensures var b := Bump(env, e.inc, e.e, c, EvalAddr(g, env, e.e, c, a, m, fuel));
      b.Val? && Eval(g, env, e, c, a, m, fuel) == AluImm(if e.inc then SUB else ADD, c, b, Unit(Type(env, e.e)))
  {
    hide Alu;
  }

  lemma BranchTyped(env: Env, e: Expr)
    requires (e.Lor? || e.Lan? || e.Cond?) && Typed(env, e)
    ensures Typed(env, e.l) && Typed(env, e.r) && (e.Cond? ==> Typed(env, e.c))
  {
  }

  lemma ShortCode(env: Env, e: Expr, k: int)
    requires (e.Lor? || e.Lan?) && Typed(env, e) && Typed(env, e.l) && Typed(env, e.r)
    ensures var cx := Compile(env, e.l, k);
      var cy := Compile(env, e.r, k + |cx| + 2);
      Compile(env, e, k) == cx + [if e.Lor? then BNZ else BZ, Wrap(k + |cx| + 2 + |cy|)] + cy
  {
    hide Typed, CompileAddr, CompileArgs, Type, Lvalue, BinTail, BumpTail, UnbumpTail, CallTail, Wrap, Lookup;
  }

  lemma ShortValue(g: Program, env: Env, e: Expr, c: Ctx, a: word, m: Mem, fuel: nat)
    requires (e.Lor? || e.Lan?) && Eval(g, env, e, c, a, m, fuel).Val?
    ensures Eval(g, env, e.l, c, a, m, fuel).Val?
    ensures var r := Eval(g, env, e.l, c, a, m, fuel);
      Eval(g, env, e, c, a, m, fuel)
        == if (r.v != 0) == e.Lor? then r else Eval(g, env, e.r, c, r.v, r.m, fuel)
  {
  }

  lemma CondCode(env: Env, e: Expr, k: int)
    requires e.Cond? && Typed(env, e) && Typed(env, e.c) && Typed(env, e.l) && Typed(env, e.r)
    ensures var cx := Compile(env, e.c, k);
      var cy := Compile(env, e.l, k + |cx| + 2);
      var other := k + |cx| + 2 + |cy| + 2;
      var cz := Compile(env, e.r, other);
      Compile(env, e, k) == cx + [BZ, Wrap(other)] + cy + [JMP, Wrap(other + |cz|)] + cz
  {
    hide Typed, CompileAddr, CompileArgs, Type, Lvalue, BinTail, BumpTail, UnbumpTail, CallTail, Wrap, Lookup;
    match e
    case Cond(x, y, z) =>
  }

  lemma CondValue(g: Program, env: Env, e: Expr, c: Ctx, a: word, m: Mem, fuel: nat)
    requires e.Cond? && Eval(g, env, e, c, a, m, fuel).Val?
    ensures Eval(g, env, e.c, c, a, m, fuel).Val?
    ensures var r := Eval(g, env, e.c, c, a, m, fuel);
      Eval(g, env, e, c, a, m, fuel) == Eval(g, env, if r.v != 0 then e.l else e.r, c, r.v, r.m, fuel)
  {
  }

  lemma CallParts(g: Program, env: Env, e: Expr, c: Ctx, a: word, m: Mem, fuel: nat, k: int)
    requires e.Call? && Typed(env, e) && Eval(g, env, e, c, a, m, fuel).Val?
    ensures TypedArgs(env, e.args) && EvalArgs(g, env, e.args, c, a, m, fuel).Vals?
    ensures Lookup(env, e.id).cls == FUN && Lookup(env, e.id).val in g && fuel > 0
    ensures Compile(env, e, k) == CompileArgs(env, e.args, k) + CallTail(env, e.id, Count(e.args))
    ensures var r := EvalArgs(g, env, e.args, c, a, m, fuel);
      Eval(g, env, e, c, a, m, fuel) == EvalCall(g, g[Lookup(env, e.id).val], r.vs, c, r.v, r.m, fuel - 1)
  {
  }

  lemma ArgCode(env: Env, x: Expr, rest: Args, k: int)
    requires Typed(env, x) && TypedArgs(env, rest)
    ensures var cx := Compile(env, x, k);
      CompileArgs(env, Arg(x, rest), k) == cx + ([PSH] + CompileArgs(env, rest, k + |cx| + 1))
  {
    hide Compile;
    var cx := Compile(env, x, k);
    assert |cx + [PSH]| == |cx| + 1;
    Assoc3(cx, [PSH], CompileArgs(env, rest, k + |cx| + 1));
  }

  lemma ArgValue(g: Program, env: Env, x: Expr, rest: Args, c: Ctx, a: word, m: Mem, fuel: nat)
    requires EvalArgs(g, env, Arg(x, rest), c, a, m, fuel).Vals?
    ensures Eval(g, env, x, c, a, m, fuel).Val? && Room(c, 1)
    ensures var r := Eval(g, env, x, c, a, m, fuel);
      var rs := EvalArgs(g, env, rest, Down(c, 1), r.v, r.m, fuel);
      rs.Vals? && EvalArgs(g, env, Arg(x, rest), c, a, m, fuel) == Vals([r.v] + rs.vs, rs.v, rs.m)
  {
    hide Eval;
  }

  lemma CallValue(g: Program, f: Func, vs: seq<word>, c: Ctx, a: word, m: Mem, fuel: nat)
    requires EvalCall(g, f, vs, c, a, m, fuel).Val?
    ensures |vs| == f.params && Room(c, f.params + 2 + f.locals)
    ensures var r := ExecAll(g, f.env, f.body, CalleeCtx(f, c), a, PutArgs(m, c.sp, vs), fuel);
      !r.StmtStuck? && EvalCall(g, f, vs, c, a, m, fuel) == Val(r.v, Restrict(r.m, c.own))
  {
    hide ExecAll, CalleeCtx, PutArgs, Restrict;
  }

  // ----- statements -----

  lemma IfCode(env: Env, s: Stmt, k: int)
    requires s.If? && TypedStmt(env, s)
    ensures Typed(env, s.c) && TypedStmt(env, s.t)
    ensures var ce := Compile(env, s.c, k);
      var ct := CompileStmt(env, s.t, k + |ce| + 2);
      CompileStmt(env, s, k) == ce + [BZ, Wrap(k + |ce| + 2 + |ct|)] + ct
  {
    hide Compile, Typed, Wrap;
  }

  lemma IfElseCode(env: Env, s: Stmt, k: int)
    requires s.IfElse? && TypedStmt(env, s)
    ensures Typed(env, s.c) && TypedStmt(env, s.t) && TypedStmt(env, s.f)
    ensures var ce := Compile(env, s.c, k);
      var ct := CompileStmt(env, s.t, k + |ce| + 2);
      var other := k + |ce| + 2 + |ct| + 2;
      var cf := CompileStmt(env, s.f, other);
      CompileStmt(env, s, k) == ce + [BZ, Wrap(other)] + ct + [JMP, Wrap(other + |cf|)] + cf
  {
    hide Compile, Typed, Wrap;
    match s
    case IfElse(_, _, _) =>
  }

  lemma WhileCode(env: Env, s: Stmt, k: int)
    requires s.While? && TypedStmt(env, s)
    ensures Typed(env, s.c) && TypedStmt(env, s.t)
    ensures var ce := Compile(env, s.c, k);
      var ct := CompileStmt(env, s.t, k + |ce| + 2);
      CompileStmt(env, s, k) == ce + [BZ, Wrap(k + |ce| + 2 + |ct| + 2)] + ct + [JMP, Wrap(k)]
  {
    hide Compile, Typed, Wrap;
  }

  lemma ThenCode(env: Env, s: Stmt, rest: Stmts, k: int)
    requires TypedStmts(env, Then(s, rest))
    ensures TypedStmt(env, s) && TypedStmts(env, rest)
    ensures var cs := CompileStmt(env, s, k);
      CompileStmts(env, Then(s, rest), k) == cs + CompileStmts(env, rest, k + |cs|)
  {
    hide CompileStmt, TypedStmt;
  }

  lemma BranchValue(g: Program, env: Env, s: Stmt, c: Ctx, a: word, m: Mem, fuel: nat)
    requires (s.If? || s.IfElse?) && !Exec(g, env, s, c, a, m, fuel).StmtStuck?
    ensures Eval(g, env, s.c, c, a, m, fuel).Val?
    ensures var r := Eval(g, env, s.c, c, a, m, fuel);
      Exec(g, env, s, c, a, m, fuel)
        == if r.v != 0 then Exec(g, env, s.t, c, r.v, r.m, fuel)
           else if s.If? then Normal(r.v, r.m) else Exec(g, env, s.f, c, r.v, r.m, fuel)
  {
    hide Eval;
  }

  lemma WhileValue(g: Program, env: Env, s: Stmt, c: Ctx, a: word, m: Mem, fuel: nat)
    requires s.While? && !Exec(g, env, s, c, a, m, fuel).StmtStuck?
    ensures Eval(g, env, s.c, c, a, m, fuel).Val?
    ensures var r := Eval(g, env, s.c, c, a, m, fuel);
      if r.v == 0 then Exec(g, env, s, c, a, m, fuel) == Normal(r.v, r.m)
      else var q := Exec(g, env, s.t, c, r.v, r.m, fuel);
        && !q.StmtStuck?
        && (q.Normal? ==> fuel > 0)
        && Exec(g, env, s, c, a, m, fuel) == if q.Normal? then Exec(g, env, s, c, q.v, q.m, fuel - 1) else q
  {
    hide Eval;
  }

  lemma ThenValue(g: Program, env: Env, s: Stmt, rest: Stmts, c: Ctx, a: word, m: Mem, fuel: nat)
    requires !ExecAll(g, env, Then(s, rest), c, a, m, fuel).StmtStuck?
    ensures var r := Exec(g, env, s, c, a, m, fuel);
      && !r.StmtStuck?
      && ExecAll(g, env, Then(s, rest), c, a, m, fuel)
         == if r.Normal? then ExecAll(g, env, rest, c, r.v, r.m, fuel) else r
  {
    hide Exec;
  }
}
