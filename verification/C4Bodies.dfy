/** Which statements the one-pass parser reads, and what it accepts and emits for them on any tokens. */
module C4Bodies {
  import opened C4Words
  import opened C4Machine
  import opened C4Syntax
  import opened C4Parser
  import opened C4Printer
  import opened C4Parts
  import opened C4Statements
  import opened C4Reader
  import opened C4Accepts

  datatype StmtRead = GotStmt(s: Stmt, k: Toks) | BadStmt
  datatype StmtsRead = GotStmts(ss: Stmts, k: Toks) | BadStmts

  function TreeGuard(ts: Toks): (r: Read)
    ensures r.Got? ==> Size(r.k) < Size(ts)
  {
    if Head(ts) == CH_OPEN && ts.More? then Closed(TreeExpr(TK_ASSIGN, ts.rest), CH_CLOSE) else Bad
  }

  function TreeIf(ts: Toks): (r: StmtRead)
    ensures r.GotStmt? ==> Size(r.k) < Size(ts)
    decreases Size(ts), 1
  {
    match TreeGuard(ts)
    case Bad => BadStmt
    case Got(e, k) =>
      match TreeStmt(k)
      case BadStmt => BadStmt
      case GotStmt(t, k2) =>
        if Head(k2) != TK_ELSE then GotStmt(If(e, t), k2)
        else
          match TreeStmt(Rest(k2))
          case BadStmt => BadStmt
          case GotStmt(f, k3) => GotStmt(IfElse(e, t, f), k3)
  }

  function TreeWhile(ts: Toks): (r: StmtRead)
    ensures r.GotStmt? ==> Size(r.k) < Size(ts)
    decreases Size(ts), 1
  {
    match TreeGuard(ts)
    case Bad => BadStmt
    case Got(e, k) =>
      match TreeStmt(k)
      case BadStmt => BadStmt
      case GotStmt(t, k2) => GotStmt(While(e, t), k2)
  }

  function TreeReturn(ts: Toks): (r: StmtRead)
    ensures r.GotStmt? ==> Size(r.k) <= Size(ts)
  {
    if Head(ts) == CH_SEMI then GotStmt(Return, Rest(ts))
    else
      match Closed(TreeExpr(TK_ASSIGN, ts), CH_SEMI)
      case Bad => BadStmt
      case Got(e, k) => GotStmt(ReturnExpr(e), k)
  }

  /** Statements up to and over a closing brace. */
  function TreeBlock(ts: Toks): (r: StmtsRead)
    ensures r.GotStmts? ==> Size(r.k) <= Size(ts)
    decreases Size(ts), 1
  {
    if Head(ts) == CH_RBRACE then GotStmts(NoStmts, Rest(ts))
    else
      match TreeStmt(ts)
      case BadStmt => BadStmts
      case GotStmt(s, k) =>
        match TreeBlock(k)
        case BadStmts => BadStmts
        case GotStmts(more, k2) => GotStmts(Then(s, more), k2)
  }

  function TreeStmt(ts: Toks): (r: StmtRead)
    ensures r.GotStmt? ==> Size(r.k) < Size(ts)
    decreases Size(ts), 0
  {
    if ts.End? then BadStmt
    else
      var n := ts.rest;
      if ts.tk == TK_IF then TreeIf(n)
      else if ts.tk == TK_WHILE then TreeWhile(n)
      else if ts.tk == TK_RETURN then TreeReturn(n)
      else if ts.tk == CH_LBRACE then
        match TreeBlock(n)
        case BadStmts => BadStmt
        case GotStmts(ss, k) => GotStmt(Block(ss), k)
      else if ts.tk == CH_SEMI then GotStmt(Empty, n)
      else
        match Closed(TreeExpr(TK_ASSIGN, ts), CH_SEMI)
        case Bad => BadStmt
        case Got(e, k) => GotStmt(ExprStmt(e), k)
  }

  // ----- the statements that are read -----

  /** A statement reads differently only if an `else` comes next. */
  lemma {:induction false} FitsBefore(s: Stmt, fol: int, c: int)
    requires StmtFits(s, fol) && c != TK_ELSE
    ensures StmtFits(s, c)
    decreases s
  {
    hide Fits;
    match s
    case If(_, t) => FitsBefore(t, fol, c);
    case IfElse(_, _, f) => FitsBefore(f, fol, c);
    case While(_, t) => FitsBefore(t, fol, c);
    case _ =>
  }

  lemma GuardFits(ts: Toks)
    requires TreeGuard(ts).Got?
    ensures Fits(TreeGuard(ts).e, TK_ASSIGN, CH_CLOSE)
  {
    hide TreeExpr, Fits;
    ReadFits(TK_ASSIGN, ts.rest);
  }

  /** Whatever statement is read needs no further braces. */
  lemma {:induction false} StmtReadFits(ts: Toks)
    requires TreeStmt(ts).GotStmt?
    ensures StmtFits(TreeStmt(ts).s, Head(TreeStmt(ts).k)) && FirstOf(TreeStmt(ts).s) == Head(ts)
    decreases Size(ts), 0
  {
    hide TreeExpr, TreeGuard, Fits, First;
    var n := ts.rest;
    if ts.tk == TK_IF {
      IfReadFits(n);
    } else if ts.tk == TK_WHILE {
      GuardFits(n);
      StmtReadFits(TreeGuard(n).k);
    } else if ts.tk == TK_RETURN {
      if Head(n) != CH_SEMI {
        ReadFits(TK_ASSIGN, n);
      }
    } else if ts.tk == CH_LBRACE {
      BlockReadFits(n);
    } else if ts.tk != CH_SEMI {
      ReadFits(TK_ASSIGN, ts);
      ReadFirst(TK_ASSIGN, ts);
    }
  }

  lemma {:induction false} IfReadFits(ts: Toks)
    requires TreeIf(ts).GotStmt?
    ensures StmtFits(TreeIf(ts).s, Head(TreeIf(ts).k)) && FirstOf(TreeIf(ts).s) == TK_IF
    decreases Size(ts), 1
  {
    hide TreeExpr, TreeGuard, TreeStmt, Fits;
    GuardFits(ts);
    var k := TreeGuard(ts).k;
    StmtReadFits(k);
    if Head(TreeStmt(k).k) == TK_ELSE {
      StmtReadFits(Rest(TreeStmt(k).k));
    }
  }

  lemma {:induction false} BlockReadFits(ts: Toks)
    requires TreeBlock(ts).GotStmts?
    ensures StmtsFit(TreeBlock(ts).ss)
    ensures TreeBlock(ts).ss.Then? ==> FirstOf(TreeBlock(ts).ss.head) == Head(ts)
    decreases Size(ts), 1
  {
    hide TreeStmt, StmtFits, FirstOf;
    if Head(ts) != CH_RBRACE {
      var r := TreeStmt(ts);
      StmtReadFits(ts);
      BlockReadFits(r.k);
      var more := TreeBlock(r.k).ss;
      if more.NoStmts? {
        FitsBefore(r.s, Head(r.k), CH_RBRACE);
      }
    }
  }

  // ----- reading statements back -----

  lemma GuardReadsBack(e: Expr, k: Toks)
    requires Fits(e, TK_ASSIGN, CH_CLOSE)
    ensures TreeGuard(T(CH_OPEN, Tokens(e, T(CH_CLOSE, k)))) == Got(e, k)
  {
    hide TreeExpr, Fits, Tokens;
    OperandReads(e, TK_ASSIGN, T(CH_CLOSE, k));
  }

  lemma {:induction false} StmtTreeReads(s: Stmt, k: Toks)
    requires StmtFits(s, Head(k))
    ensures TreeStmt(StmtToks(s, k)) == GotStmt(s, k)
    decreases s, 1
  {
    hide TreeExpr, TreeGuard, Fits, Tokens, TreeBlock;
    match s
    case If(_, _) => BranchTreeReads(s, k);
    case IfElse(_, _, _) => BranchTreeReads(s, k);
    case While(_, _) => BranchTreeReads(s, k);
    case Return =>
    case ReturnExpr(e) =>
      HeadOfTokens(e, T(CH_SEMI, k));
      OperandReads(e, TK_ASSIGN, T(CH_SEMI, k));
    case Block(ss) => BlockTreeReads(ss, k);
    case Empty =>
    case ExprStmt(e) =>
      HeadOfStmt(s, k);
      OperandReads(e, TK_ASSIGN, T(CH_SEMI, k));
  }

  lemma {:induction false} BranchTreeReads(s: Stmt, k: Toks)
    requires StmtFits(s, Head(k)) && (s.If? || s.IfElse? || s.While?)
    ensures TreeStmt(StmtToks(s, k)) == GotStmt(s, k)
    decreases s, 0
  {
    hide TreeGuard, TreeStmt, Fits, Tokens;
    var k1 := if s.IfElse? then T(TK_ELSE, StmtToks(s.f, k)) else k;
    GuardReadsBack(s.c, StmtToks(s.t, k1));
    StmtTreeReads(s.t, k1);
    if s.IfElse? {
      StmtTreeReads(s.f, k);
    }
    BranchStarts(T(CH_OPEN, Tokens(s.c, T(CH_CLOSE, StmtToks(s.t, k1)))));
  }

  lemma BranchStarts(ts: Toks)
    ensures TreeStmt(T(TK_IF, ts)) == TreeIf(ts) && TreeStmt(T(TK_WHILE, ts)) == TreeWhile(ts)
  {
    hide TreeIf, TreeWhile;
  }

  lemma {:induction false} BlockTreeReads(ss: Stmts, k: Toks)
    requires StmtsFit(ss)
    ensures TreeBlock(StmtsToks(ss, T(CH_RBRACE, k))) == GotStmts(ss, k)
    decreases ss, 0
  {
    hide TreeStmt, StmtToks, StmtFits;
    match ss
    case NoStmts =>
    case Then(s, rest) =>
      var k1 := StmtsToks(rest, T(CH_RBRACE, k));
      if rest.Then? {
        HeadOfStmt(rest.head, StmtsToks(rest.tail, T(CH_RBRACE, k)));
      }
      HeadOfStmt(s, k1);
      StmtTreeReads(s, k1);
      BlockTreeReads(rest, k);
  }

  /** A statement is read back as itself exactly when no `else` is taken by the wrong `if` and no
      expression needs further parentheses. */
  lemma StmtReadBackExactly(s: Stmt, k: Toks)
    ensures TreeStmt(StmtToks(s, k)) == GotStmt(s, k) <==> StmtFits(s, Head(k))
  {
    hide TreeStmt, StmtToks, StmtFits;
    if StmtFits(s, Head(k)) {
      StmtTreeReads(s, k);
    }
    if TreeStmt(StmtToks(s, k)) == GotStmt(s, k) {
      StmtReadFits(StmtToks(s, k));
    }
  }

  // ----- what is accepted -----

  predicate TargetsStmt(env: Env, s: Stmt) {
    match s
    case If(e, t) => Targets(env, e) && TargetsStmt(env, t)
    case IfElse(e, t, f) => Targets(env, e) && TargetsStmt(env, t) && TargetsStmt(env, f)
    case While(e, t) => Targets(env, e) && TargetsStmt(env, t)
    case Return => true
    case ReturnExpr(e) => Targets(env, e)
    case Block(ss) => TargetsStmts(env, ss)
    case Empty => true
    case ExprStmt(e) => Targets(env, e)
  }

  predicate TargetsStmts(env: Env, ss: Stmts) {
    match ss
    case NoStmts => true
    case Then(s, rest) => TargetsStmt(env, s) && TargetsStmts(env, rest)
  }

  /** The same agreement as for expressions. */
  ghost predicate StmtAgreesOn(env: Env, r: StmtRead, p: PRes, code: Code) {
    && (p.Ok? ==> r.GotStmt? && p.s.toks == r.k)
    && (r.GotStmt? && TargetsStmt(env, r.s) ==> (p.Ok? <==> TypedStmt(env, r.s)))
    && (r.GotStmt? && TypedStmt(env, r.s) ==>
         p.Ok? && p.s.toks == r.k && p.s.code == code + CompileStmt(env, r.s, |code|))
  }

  ghost predicate BlockAgreesOn(env: Env, r: StmtsRead, p: PRes, code: Code) {
    && (p.Ok? ==> r.GotStmts? && p.s.toks == r.k)
    && (r.GotStmts? && TargetsStmts(env, r.ss) ==> (p.Ok? <==> TypedStmts(env, r.ss)))
    && (r.GotStmts? && TypedStmts(env, r.ss) ==>
         p.Ok? && p.s.toks == r.k && p.s.code == code + CompileStmts(env, r.ss, |code|))
  }

  lemma GuardAgrees(env: Env, s: PState)
    requires Library(env)
    ensures var r, p := TreeGuard(s.toks), ParseGuard(env, s);
      && (p.Ok? ==> r.Got? && p.s.toks == r.k)
      && (r.Got? && Targets(env, r.e) ==> (p.Ok? <==> Typed(env, r.e)))
      && (r.Got? && Typed(env, r.e) ==>
           p == Ok(PState(r.k, s.code + Compile(env, r.e, |s.code|) + [BZ, 0], Type(env, r.e))))
  {
    hide TreeExpr, ParseExpr, Compile, Typed, Targets;
    if s.Tk() == CH_OPEN {
      ExprAgrees(env, TK_ASSIGN, s.Next());
    }
  }

  lemma {:induction false} StmtAgrees(env: Env, s: PState)
    requires Library(env)
    ensures StmtAgreesOn(env, TreeStmt(s.toks), ParseStmt(env, s), s.code)
    decreases Size(s.toks), 2
  {
    hide TreeExpr, ParseExpr, Compile, Typed, Targets, TreeIf, ParseIf, TreeWhile, ParseWhile, TreeBlock, ParseBlock,
      ParseReturn, TreeReturn;
    var tk := s.Tk();
    if s.toks.End? {
    } else if tk == TK_IF {
      IfAgrees(env, s.Next());
    } else if tk == TK_WHILE {
      WhileAgrees(env, s.Next());
    } else if tk == TK_RETURN {
      ReturnAgrees(env, s.Next());
    } else if tk == CH_LBRACE {
      BlockAgrees(env, s.Next());
    } else if tk == CH_SEMI {
      assert s.code + [] == s.code;
    } else {
      ExprAgrees(env, TK_ASSIGN, s);
    }
  }

  lemma {:induction false} BlockAgrees(env: Env, s: PState)
    requires Library(env)
    ensures BlockAgreesOn(env, TreeBlock(s.toks), ParseBlock(env, s), s.code)
    decreases Size(s.toks), 3
  {
    hide TreeStmt, ParseStmt, CompileStmt, TypedStmt, TargetsStmt;
    if s.Tk() == CH_RBRACE {
      assert s.code + [] == s.code;
    } else {
      StmtAgrees(env, s);
      var r, p := TreeStmt(s.toks), ParseStmt(env, s);
      if p.Ok? {
        BlockAgrees(env, p.s);
        var more := TreeBlock(r.k);
        if TypedStmt(env, r.s) && more.GotStmts? && TypedStmts(env, more.ss) {
          Assoc3(s.code, CompileStmt(env, r.s, |s.code|), CompileStmts(env, more.ss, |p.s.code|));
        }
      }
    }
  }

  lemma ReturnAgrees(env: Env, s: PState)
    requires Library(env)
    ensures StmtAgreesOn(env, TreeReturn(s.toks), ParseReturn(env, s), s.code)
  {
    hide TreeExpr, ParseExpr, Compile, Typed, Targets;
    if s.Tk() != CH_SEMI {
      ExprAgrees(env, TK_ASSIGN, s);
      var r := TreeExpr(TK_ASSIGN, s.toks);
      if r.Got? && Typed(env, r.e) {
        Assoc3(s.code, Compile(env, r.e, |s.code|), [LEV]);
      }
    }
  }

  lemma {:induction false} WhileAgrees(env: Env, s: PState)
    requires Library(env)
    ensures StmtAgreesOn(env, TreeWhile(s.toks), ParseWhile(env, s), s.code)
    decreases Size(s.toks), 3
  {
    hide TreeGuard, ParseGuard, TreeStmt, ParseStmt, Compile, CompileStmt, Typed, TypedStmt, Targets, TargetsStmt,
      Type, Wrap;
    GuardAgrees(env, s);
    var r, p := TreeGuard(s.toks), ParseGuard(env, s);
    if p.Ok? {
      StmtAgrees(env, p.s);
      var r2 := TreeStmt(p.s.toks);
      if r2.GotStmt? {
        WhileTyped(env, r.e, r2.s);
        if TypedStmt(env, While(r.e, r2.s)) {
          var c := s.code;
          WhileCode(env, While(r.e, r2.s), |c|);
          WhileStep(env, s, p.s, ParseStmt(env, p.s).s);
          PatchLoop(c, Compile(env, r.e, |c|), CompileStmt(env, r2.s, |p.s.code|), Wrap(|c|));
        }
      }
    } else if r.Got? && TreeStmt(r.k).GotStmt? {
      WhileTyped(env, r.e, TreeStmt(r.k).s);
    }
  }

  lemma WhileTyped(env: Env, e: Expr, t: Stmt)
    ensures TypedStmt(env, While(e, t)) <==> Typed(env, e) && TypedStmt(env, t)
    ensures TargetsStmt(env, While(e, t)) <==> Targets(env, e) && TargetsStmt(env, t)
  {
  }

  lemma IfTyped(env: Env, e: Expr, t: Stmt, f: Stmt)
    ensures TypedStmt(env, If(e, t)) <==> Typed(env, e) && TypedStmt(env, t)
    ensures TargetsStmt(env, If(e, t)) <==> Targets(env, e) && TargetsStmt(env, t)
    ensures TypedStmt(env, IfElse(e, t, f)) <==> Typed(env, e) && TypedStmt(env, t) && TypedStmt(env, f)
    ensures TargetsStmt(env, IfElse(e, t, f)) <==> Targets(env, e) && TargetsStmt(env, t) && TargetsStmt(env, f)
  {
  }

  /** The state at an `else`, its token passed. */
  function AtElse(s1: PState, s2: PState): PState
    requires s1.code != [] && |s2.code| >= |s1.code|
  {
    PState(s2.Next().toks, (s2.code + [JMP, 0])[|s1.code| - 1 := Wrap(|s2.code| + 2)], s2.ty)
  }

  lemma IfParses(env: Env, s: PState, s1: PState)
    requires Library(env) && ParseGuard(env, s) == Ok(s1) && s1.code != []
    ensures var q := ParseStmt(env, s1);
      if q.Err? then ParseIf(env, s).Err?
      else if q.s.Tk() != TK_ELSE then
        && |q.s.code| >= |s1.code|
        && ParseIf(env, s) == Ok(q.s.(code := q.s.code[|s1.code| - 1 := Wrap(|q.s.code|)]))
      else
        && |q.s.code| >= |s1.code|
        && var c2 := AtElse(s1, q.s);
        var r := ParseStmt(env, c2);
        if r.Err? then ParseIf(env, s).Err?
        else
          && |r.s.code| >= |c2.code|
          && ParseIf(env, s) == Ok(r.s.(code := r.s.code[|c2.code| - 1 := Wrap(|r.s.code|)]))
  {
    hide ParseGuard, ParseStmt, Wrap;
  }

  lemma IfReads(ts: Toks)
    ensures var r := TreeGuard(ts);
      if r.Bad? then TreeIf(ts).BadStmt?
      else
        var q := TreeStmt(r.k);
        if q.BadStmt? then TreeIf(ts).BadStmt?
        else if Head(q.k) != TK_ELSE then TreeIf(ts) == GotStmt(If(r.e, q.s), q.k)
        else
          var f := TreeStmt(Rest(q.k));
          TreeIf(ts) == if f.BadStmt? then f else GotStmt(IfElse(r.e, q.s, f.s), f.k)
  {
    hide TreeGuard, TreeStmt;
  }

  lemma {:induction false} IfAgrees(env: Env, s: PState)
    requires Library(env)
    ensures StmtAgreesOn(env, TreeIf(s.toks), ParseIf(env, s), s.code)
    decreases Size(s.toks), 3
  {
    hide TreeGuard, ParseGuard, TreeStmt, ParseStmt, TreeIf, ParseIf, Compile, CompileStmt, Typed, TypedStmt, Targets,
      TargetsStmt, Type, Wrap;
    GuardAgrees(env, s);
    IfReads(s.toks);
    var r, p := TreeGuard(s.toks), ParseGuard(env, s);
    if p.Ok? {
      StmtAgrees(env, p.s);
    }
    if r.Bad? || TreeStmt(r.k).BadStmt? {
      IfBad(env, s);
      return;
    }
    var t, k2 := TreeStmt(r.k).s, TreeStmt(r.k).k;
    var f := if Head(k2) == TK_ELSE then TreeStmt(Rest(k2)) else BadStmt;
    IfTyped(env, r.e, t, if f.GotStmt? then f.s else Empty);
    if p.Ok? {
      IfParses(env, s, p.s);
      var q := ParseStmt(env, p.s);
      if q.Ok? && Head(k2) == TK_ELSE {
        StmtAgrees(env, AtElse(p.s, q.s));
        if f.GotStmt? && TypedStmt(env, IfElse(r.e, t, f.s)) {
          IfElseEmits(env, IfElse(r.e, t, f.s), s.code);
        }
      } else if q.Ok? && TypedStmt(env, If(r.e, t)) {
        IfEmits(env, If(r.e, t), s.code);
      }
    } else {
      IfBad(env, s);
    }
  }

  lemma IfBad(env: Env, s: PState)
    requires Library(env)
    ensures ParseGuard(env, s).Err? ==> ParseIf(env, s).Err?
    ensures ParseGuard(env, s).Ok? && ParseStmt(env, ParseGuard(env, s).s).Err? ==> ParseIf(env, s).Err?
  {
    hide ParseGuard, ParseStmt;
  }

  lemma IfEmits(env: Env, st: Stmt, code: Code)
    requires st.If? && TypedStmt(env, st) && Typed(env, st.c) && TypedStmt(env, st.t)
    ensures var c1 := code + Compile(env, st.c, |code|) + [BZ, 0];
      var c2 := c1 + CompileStmt(env, st.t, |c1|);
      c2[|c1| - 1 := Wrap(|c2|)] == code + CompileStmt(env, st, |code|)
  {
    hide Compile, CompileStmt, Typed, TypedStmt, Wrap;
    IfCode(env, st, |code|);
    var ce := Compile(env, st.c, |code|);
    var c1 := code + ce + [BZ, 0];
    assert |c1| == |code| + |ce| + 2 && |code + ce| + 1 == |c1| - 1;
    PatchBranch(code, ce, BZ, CompileStmt(env, st.t, |c1|));
  }

  lemma IfElseEmits(env: Env, st: Stmt, code: Code)
    requires st.IfElse? && TypedStmt(env, st) && Typed(env, st.c) && TypedStmt(env, st.t) && TypedStmt(env, st.f)
    ensures var c1 := code + Compile(env, st.c, |code|) + [BZ, 0];
      var c2 := c1 + CompileStmt(env, st.t, |c1|);
      var c3 := (c2 + [JMP, 0])[|c1| - 1 := Wrap(|c2| + 2)];
      var c4 := c3 + CompileStmt(env, st.f, |c3|);
      c4[|c3| - 1 := Wrap(|c4|)] == code + CompileStmt(env, st, |code|)
  {
    hide Compile, CompileStmt, Typed, TypedStmt, Wrap;
    IfElseCode(env, st, |code|);
    var ce := Compile(env, st.c, |code|);
    var c1 := code + ce + [BZ, 0];
    assert |c1| == |code| + |ce| + 2 && |code + ce| + 1 == |c1| - 1;
    var ct := CompileStmt(env, st.t, |c1|);
    PatchBranch2(code, ce, ct, CompileStmt(env, st.f, |c1| + |ct| + 2));
  }
}
