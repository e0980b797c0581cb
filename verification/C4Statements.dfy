/** `stmt`: the statement half of the one-pass compiler, and reading statements back. */
module C4Statements {
  import opened C4Words
  import opened C4Machine
  import opened C4Syntax
  import opened C4Parser
  import opened C4Printer
  import opened C4Parts

  /** `(` expression `)` and the branch over what follows. */
  function ParseGuard(env: Env, s: PState): (r: PRes)
    requires Library(env)
    ensures r.Ok? ==> Size(r.s.toks) <= Size(s.toks)
    ensures r.Ok? ==> |r.s.code| >= |s.code| + 2
  {
    var s1 :- Expect(s, CH_OPEN, OpenParenExpected);
    var s2 :- ParseExpr(env, TK_ASSIGN, s1);
    var s3 :- Expect(s2, CH_CLOSE, CloseParenExpected);
    Ok(s3.Emit([BZ, 0]))
  }

  function ParseIf(env: Env, s: PState): (r: PRes)
    requires Library(env)
    ensures r.Ok? ==> Size(r.s.toks) <= Size(s.toks)
    ensures r.Ok? ==> |r.s.code| >= |s.code|
    decreases Size(s.toks), 1
  {
    var s1 :- ParseGuard(env, s);
    var b := |s1.code| - 1;
    var s2 :- ParseStmt(env, s1);
    if s2.Tk() == TK_ELSE then
      var s3 := s2.Emit([JMP, 0]).Patch(b);
      var b' := |s3.code| - 1;
      var s4 :- ParseStmt(env, s3.Next());
      Ok(s4.Patch(b'))
    else Ok(s2.Patch(b))
  }

  function ParseWhile(env: Env, s: PState): (r: PRes)
    requires Library(env)
    ensures r.Ok? ==> Size(r.s.toks) <= Size(s.toks)
    ensures r.Ok? ==> |r.s.code| >= |s.code|
    decreases Size(s.toks), 1
  {
    var a := |s.code|;
    var s1 :- ParseGuard(env, s);
    var b := |s1.code| - 1;
    var s2 :- ParseStmt(env, s1);
    Ok(s2.Emit([JMP, Wrap(a)]).Patch(b))
  }

  function ParseReturn(env: Env, s: PState): (r: PRes)
    requires Library(env)
    ensures r.Ok? ==> Size(r.s.toks) <= Size(s.toks)
    ensures r.Ok? ==> |r.s.code| >= |s.code|
  {
    var s1 :- if s.Tk() != CH_SEMI then ParseExpr(env, TK_ASSIGN, s) else Ok(s);
    Expect(s1.Emit([LEV]), CH_SEMI, SemicolonExpected)
  }

  /** `while (tk != '}') stmt();` and the brace. */
  function ParseBlock(env: Env, s: PState): (r: PRes)
    requires Library(env)
    ensures r.Ok? ==> Size(r.s.toks) <= Size(s.toks)
    ensures r.Ok? ==> |r.s.code| >= |s.code|
    decreases Size(s.toks), 1
  {
    if s.Tk() == CH_RBRACE then Ok(s.Next())
    else
      var s1 :- ParseStmt(env, s);
      ParseBlock(env, s1)
  }

  function ParseStmt(env: Env, s: PState): (r: PRes)
    requires Library(env)
    ensures r.Ok? ==> Size(r.s.toks) < Size(s.toks)
    ensures r.Ok? ==> |r.s.code| >= |s.code|
    decreases Size(s.toks), 0
  {
    var tk, n := s.Tk(), s.Next();
    if s.toks.End? then Err(UnexpectedEof)
    else if tk == TK_IF then ParseIf(env, n)
    else if tk == TK_WHILE then ParseWhile(env, n)
    else if tk == TK_RETURN then ParseReturn(env, n)
    else if tk == CH_LBRACE then ParseBlock(env, n)
    else if tk == CH_SEMI then Ok(n)
    else
      var s1 :- ParseExpr(env, TK_ASSIGN, s);
      Expect(s1, CH_SEMI, SemicolonExpected)
  }

  // ----- the token string of a statement -----

  function StmtToks(s: Stmt, k: Toks): Toks
    decreases s
  {
    match s
    case If(e, t) => T(TK_IF, T(CH_OPEN, Tokens(e, T(CH_CLOSE, StmtToks(t, k)))))
    case IfElse(e, t, f) => T(TK_IF, T(CH_OPEN, Tokens(e, T(CH_CLOSE, StmtToks(t, T(TK_ELSE, StmtToks(f, k)))))))
    case While(e, t) => T(TK_WHILE, T(CH_OPEN, Tokens(e, T(CH_CLOSE, StmtToks(t, k)))))
    case Return => T(TK_RETURN, T(CH_SEMI, k))
    case ReturnExpr(e) => T(TK_RETURN, Tokens(e, T(CH_SEMI, k)))
    case Block(ss) => T(CH_LBRACE, StmtsToks(ss, T(CH_RBRACE, k)))
    case Empty => T(CH_SEMI, k)
    case ExprStmt(e) => Tokens(e, T(CH_SEMI, k))
  }

  function StmtsToks(ss: Stmts, k: Toks): Toks
    decreases ss
  {
    match ss
    case NoStmts => k
    case Then(s, rest) => StmtToks(s, StmtsToks(rest, k))
  }

  function FirstOf(s: Stmt): int {
    match s
    case If(_, _) => TK_IF
    case IfElse(_, _, _) => TK_IF
    case While(_, _) => TK_WHILE
    case Return => TK_RETURN
    case ReturnExpr(_) => TK_RETURN
    case Block(_) => CH_LBRACE
    case Empty => CH_SEMI
    case ExprStmt(e) => First(e)
  }

  /** `s` reads back as itself when `fol` comes next: an `if` without `else` is not followed by one. */
  predicate StmtFits(s: Stmt, fol: int)
    decreases s
  {
    match s
    case If(e, t) => Fits(e, TK_ASSIGN, CH_CLOSE) && StmtFits(t, fol) && fol != TK_ELSE
    case IfElse(e, t, f) => Fits(e, TK_ASSIGN, CH_CLOSE) && StmtFits(t, TK_ELSE) && StmtFits(f, fol)
    case While(e, t) => Fits(e, TK_ASSIGN, CH_CLOSE) && StmtFits(t, fol)
    case Return => true
    case ReturnExpr(e) => Fits(e, TK_ASSIGN, CH_SEMI)
    case Block(ss) => StmtsFit(ss)
    case Empty => true
    case ExprStmt(e) => Fits(e, TK_ASSIGN, CH_SEMI)
  }

  predicate StmtsFit(ss: Stmts)
    decreases ss
  {
    match ss
    case NoStmts => true
    case Then(s, rest) =>
      StmtFits(s, if rest.Then? then FirstOf(rest.head) else CH_RBRACE) && StmtsFit(rest)
  }

  lemma HeadOfStmt(s: Stmt, k: Toks)
    ensures StmtToks(s, k).More? && Head(StmtToks(s, k)) == FirstOf(s)
    ensures FirstOf(s) != CH_RBRACE && FirstOf(s) != TK_ELSE
    ensures s.ExprStmt? ==> FirstOf(s) !in {TK_IF, TK_WHILE, TK_RETURN, CH_LBRACE, CH_SEMI}
  {
    if s.ExprStmt? {
      HeadOfTokens(s.e, T(CH_SEMI, k));
    }
  }

  /** `r` has read a fragment of code `c` and stands before `k`. */
  ghost predicate Emitted(r: PRes, k: Toks, code: Code, c: Code) {
    r.Ok? && r.s.toks == k && r.s.code == code + c
  }

  /** Reading the tokens of a statement consumes exactly them and emits its direct compile, with
      every forward branch backpatched. */
  lemma {:induction false} StmtReadsBack(env: Env, s: Stmt, k: Toks, code: Code, ty: int)
    requires Library(env) && TypedStmt(env, s) && StmtFits(s, Head(k))
    ensures Emitted(ParseStmt(env, PState(StmtToks(s, k), code, ty)), k, code, CompileStmt(env, s, |code|))
    decreases s, 2
  {
    hide ParseExpr, Tokens, Compile, Typed, Fits, ParseBlock, ParseIf, ParseWhile;
    HeadOfStmt(s, k);
    match s
    case If(_, _) => ReadIf(env, s, k, code, ty);
    case IfElse(_, _, _) => ReadIfElse(env, s, k, code, ty);
    case While(_, _) => ReadWhile(env, s, k, code, ty);
    case Return =>
    case ReturnExpr(e) =>
      HeadOfTokens(e, T(CH_SEMI, k));
      ReadOperand(env, e, TK_ASSIGN, T(CH_SEMI, k), code, ty);
      Assoc3(code, Compile(env, e, |code|), [LEV]);
    case Block(ss) => StmtsReadBack(env, ss, k, code, ty);
    case Empty => assert code + [] == code;
    case ExprStmt(e) => ReadOperand(env, e, TK_ASSIGN, T(CH_SEMI, k), code, ty);
  }

  lemma {:induction false} StmtsReadBack(env: Env, ss: Stmts, k: Toks, code: Code, ty: int)
    requires Library(env) && TypedStmts(env, ss) && StmtsFit(ss)
    ensures Emitted(ParseBlock(env, PState(StmtsToks(ss, T(CH_RBRACE, k)), code, ty)), k, code,
      CompileStmts(env, ss, |code|))
    decreases ss, 0
  {
    hide ParseStmt, StmtToks, CompileStmt, TypedStmt, StmtFits;
    match ss
    case NoStmts => assert code + [] == code;
    case Then(s, rest) =>
      var k1 := StmtsToks(rest, T(CH_RBRACE, k));
      if rest.Then? {
        HeadOfStmt(rest.head, StmtsToks(rest.tail, T(CH_RBRACE, k)));
      }
      HeadOfStmt(s, k1);
      StmtReadsBack(env, s, k1, code, ty);
      var s1 := ParseStmt(env, PState(StmtToks(s, k1), code, ty)).s;
      StmtsReadBack(env, rest, k, s1.code, s1.ty);
      Assoc3(code, CompileStmt(env, s, |code|), CompileStmts(env, rest, |s1.code|));
  }

  lemma GuardReads(env: Env, e: Expr, k: Toks, code: Code, ty: int)
    requires Library(env) && Typed(env, e) && Fits(e, TK_ASSIGN, CH_CLOSE)
    ensures ParseGuard(env, PState(T(CH_OPEN, Tokens(e, T(CH_CLOSE, k))), code, ty))
         == Ok(PState(k, code + Compile(env, e, |code|) + [BZ, 0], Type(env, e)))
  {
    hide ParseExpr, Tokens, Compile, Typed, Fits, Type;
    ReadOperand(env, e, TK_ASSIGN, T(CH_CLOSE, k), code, ty);
  }

  lemma IfStep(env: Env, s: PState, s1: PState, s2: PState)
    requires Library(env) && ParseGuard(env, s) == Ok(s1) && s1.code != []
    requires ParseStmt(env, s1) == Ok(s2) && s2.Tk() != TK_ELSE && |s1.code| <= |s2.code|
    ensures ParseIf(env, s) == Ok(s2.(code := s2.code[|s1.code| - 1 := Wrap(|s2.code|)]))
  {
    hide ParseGuard, ParseStmt, Wrap;
  }

  lemma {:induction false} ReadIf(env: Env, s: Stmt, k: Toks, code: Code, ty: int)
    requires Library(env) && TypedStmt(env, s) && StmtFits(s, Head(k)) && s.If?
    ensures Emitted(ParseStmt(env, PState(StmtToks(s, k), code, ty)), k, code, CompileStmt(env, s, |code|))
    decreases s, 1
  {
    hide ParseExpr, ParseGuard, ParseIf, ParseStmt, Tokens, Compile, CompileStmt, Typed, TypedStmt, Type, Fits, Wrap;
    IfCode(env, s, |code|);
    var ce := Compile(env, s.c, |code|);
    var c1 := code + ce + [BZ, 0];
    var s0 := PState(T(CH_OPEN, Tokens(s.c, T(CH_CLOSE, StmtToks(s.t, k)))), code, ty);
    var s1 := PState(StmtToks(s.t, k), c1, Type(env, s.c));
    GuardReads(env, s.c, s1.toks, code, ty);
    StmtReadsBack(env, s.t, k, c1, s1.ty);
    PatchBranch(code, ce, BZ, CompileStmt(env, s.t, |c1|));
    IfStep(env, s0, s1, ParseStmt(env, s1).s);
    IfIsIf(env, s0);
  }

  lemma IfElseStep(env: Env, s: PState, s1: PState, s2: PState, c2: Code, s4: PState)
    requires Library(env) && ParseGuard(env, s) == Ok(s1) && s1.code != []
    requires ParseStmt(env, s1) == Ok(s2) && s2.Tk() == TK_ELSE
    requires |s1.code| <= |s2.code| && c2 == (s2.code + [JMP, 0])[|s1.code| - 1 := Wrap(|s2.code| + 2)]
    requires ParseStmt(env, PState(s2.Next().toks, c2, s2.ty)) == Ok(s4)
    ensures |c2| <= |s4.code|
    ensures ParseIf(env, s) == Ok(s4.(code := s4.code[|c2| - 1 := Wrap(|s4.code|)]))
  {
    hide ParseGuard, ParseStmt, Wrap;
  }

  lemma {:induction false} ReadIfElse(env: Env, s: Stmt, k: Toks, code: Code, ty: int)
    requires Library(env) && TypedStmt(env, s) && StmtFits(s, Head(k)) && s.IfElse?
    ensures Emitted(ParseStmt(env, PState(StmtToks(s, k), code, ty)), k, code, CompileStmt(env, s, |code|))
    decreases s, 1
  {
    hide ParseExpr, ParseGuard, ParseIf, ParseStmt, Tokens, Compile, CompileStmt, Typed, TypedStmt, Type, Fits, Wrap;
    IfElseCode(env, s, |code|);
    var ce := Compile(env, s.c, |code|);
    var c1 := code + ce + [BZ, 0];
    var k1 := T(TK_ELSE, StmtToks(s.f, k));
    var s0 := PState(T(CH_OPEN, Tokens(s.c, T(CH_CLOSE, StmtToks(s.t, k1)))), code, ty);
    var s1 := PState(StmtToks(s.t, k1), c1, Type(env, s.c));
    GuardReads(env, s.c, s1.toks, code, ty);
    StmtReadsBack(env, s.t, k1, c1, s1.ty);
    var ct := CompileStmt(env, s.t, |c1|);
    PatchBranch2(code, ce, ct, CompileStmt(env, s.f, |c1| + |ct| + 2));
    var s2 := ParseStmt(env, s1).s;
    var c2 := code + (ce + [BZ, Wrap(|c1| + |ct| + 2)] + ct + [JMP, 0]);
    StmtReadsBack(env, s.f, k, c2, s2.ty);
    IfElseStep(env, s0, s1, s2, c2, ParseStmt(env, PState(s2.Next().toks, c2, s2.ty)).s);
    IfIsIf(env, s0);
  }

  lemma IfIsIf(env: Env, s: PState)
    requires Library(env)
    ensures ParseStmt(env, s.(toks := T(TK_IF, s.toks))) == ParseIf(env, s)
  {
    hide ParseIf;
  }

  lemma WhileStep(env: Env, s: PState, s1: PState, s2: PState)
    requires Library(env) && ParseGuard(env, s) == Ok(s1) && s1.code != []
    requires ParseStmt(env, s1) == Ok(s2) && |s1.code| <= |s2.code|
    ensures var c := s2.code + [JMP, Wrap(|s.code|)];
      ParseWhile(env, s) == Ok(s2.(code := c[|s1.code| - 1 := Wrap(|c|)]))
  {
    hide ParseGuard, ParseStmt, Wrap;
  }

  lemma WhileIsWhile(env: Env, s: PState)
    requires Library(env)
    ensures ParseStmt(env, s.(toks := T(TK_WHILE, s.toks))) == ParseWhile(env, s)
  {
    hide ParseWhile;
  }

  lemma {:induction false} ReadWhile(env: Env, s: Stmt, k: Toks, code: Code, ty: int)
    requires Library(env) && TypedStmt(env, s) && StmtFits(s, Head(k)) && s.While?
    ensures Emitted(ParseStmt(env, PState(StmtToks(s, k), code, ty)), k, code, CompileStmt(env, s, |code|))
    decreases s, 1
  {
    hide ParseExpr, ParseGuard, ParseWhile, ParseStmt, Tokens, Compile, CompileStmt, Typed, TypedStmt, Type, Fits, Wrap;
    WhileCode(env, s, |code|);
    var ce := Compile(env, s.c, |code|);
    var c1 := code + ce + [BZ, 0];
    var s0 := PState(T(CH_OPEN, Tokens(s.c, T(CH_CLOSE, StmtToks(s.t, k)))), code, ty);
    var s1 := PState(StmtToks(s.t, k), c1, Type(env, s.c));
    GuardReads(env, s.c, s1.toks, code, ty);
    StmtReadsBack(env, s.t, k, c1, s1.ty);
    PatchLoop(code, ce, CompileStmt(env, s.t, |c1|), Wrap(|code|));
    WhileStep(env, s0, s1, ParseStmt(env, s1).s);
    WhileIsWhile(env, s0);
  }

  lemma PatchLoop(code: Code, ce: Code, ct: Code, a: word)
    ensures var c := ((code + ce + [BZ, 0]) + ct) + [JMP, a];
      c[|code + ce| + 1 := Wrap(|c|)] == code + (ce + [BZ, Wrap(|code| + |ce| + 2 + |ct| + 2)] + ct + [JMP, a])
  {
  }
}
