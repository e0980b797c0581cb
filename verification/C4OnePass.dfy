/** From source tokens to machine runs: what one pass of the compiler emits, linked and executed. */
module C4OnePass {
  import opened Octets
  import opened C4Words
  import opened C4Machine
  import opened C4Syntax
  import opened C4Semantics
  import opened C4Steps
  import opened C4ExprRuns
  import opened C4Parser
  import opened C4Printer
  import opened C4Statements
  import opened C4Parens
  import opened Wrappers

  predicate Compilable(f: Func) {
    Library(f.env) && TypedStmts(f.env, f.body) && StmtsFit(f.body)
  }

  predicate AllCompilable(fs: seq<Func>) {
    forall i :: 0 <= i < |fs| ==> Compilable(fs[i])
  }

  /** What the compiler emits for one function, from the words `before` it. */
  function EmitFunc(f: Func, before: Code, k: Toks): PRes
    requires Library(f.env)
  {
    var s0 := PState(StmtsToks(f.body, T(CH_RBRACE, k)), before, INT);
    var s1 :- ParseBlock(f.env, s0.Emit([ENT, Wrap(f.locals)]));
    Ok(s1.Emit([LEV]))
  }

  lemma FuncEmitted(f: Func, before: Code, k: Toks)
    requires Compilable(f)
    ensures Emitted(EmitFunc(f, before, k), k, before, CompileFunc(f, |before|))
  {
    hide CompileStmts, ParseBlock, StmtsToks, TypedStmts, StmtsFit, Wrap;
    var ent := [ENT, Wrap(f.locals)];
    StmtsReadBack(f.env, f.body, k, before + ent, INT);
    var body := CompileStmts(f.env, f.body, |before| + 2);
    assert ((before + ent) + body) + [LEV] == before + (ent + body + [LEV]);
  }

  /** The text area after all functions have been compiled one after another. */
  function Text(fs: seq<Func>, before: Code): (code: Code)
    requires AllCompilable(fs)
    ensures before <= code
    decreases |fs|
  {
    if fs == [] then before else Text(fs[1..], before + CompileFunc(fs[0], |before|))
  }

  /** The entry of each function. */
  function Entries(fs: seq<Func>, before: Code): Program
    requires AllCompilable(fs)
    decreases |fs|
  {
    if fs == [] then map[]
    else Entries(fs[1..], before + CompileFunc(fs[0], |before|))[|before| := fs[0]]
  }

  lemma AtPrefix(code: Code, before: Code, c: Code)
    requires before + c <= code && |code| < TWO63
    ensures At(code, |before|, c)
  {
    assert code[..|before + c|] == before + c;
    assert code[|before|..|before| + |c|] == (before + c)[|before|..];
  }

  /** Every function of a compiled program stands at its entry. */
  lemma {:induction false} TextPlaced(fs: seq<Func>, before: Code, code: Code)
    requires AllCompilable(fs)
    requires code == Text(fs, before) && |code| < TWO63
    ensures Placed(code, Entries(fs, before))
    decreases |fs|
  {
    hide CompileFunc, TypedStmts, StmtsFit, At;
    if fs != [] {
      var next := before + CompileFunc(fs[0], |before|);
      TextPlaced(fs[1..], next, code);
      AtPrefix(code, before, CompileFunc(fs[0], |before|));
    }
  }

  lemma PlacedLonger(text: Code, code: Code, g: Program)
    requires Placed(text, g) && text <= code && |code| < TWO63
    ensures Placed(code, g)
  {
    hide CompileFunc;
    forall k | k in g ensures At(code, k, CompileFunc(g[k], k)) {
      var n := |CompileFunc(g[k], k)|;
      assert code[k..k + n] == text[k..k + n];
    }
  }

  /** One expression, from tokens to its value. */
  lemma ExprOnePass(env: Env, e: Expr, lev: int, k: Toks, before: Code, ty: int,
                    code: Code, g: Program, c: Ctx, m: Mem, fuel: nat, s: State) returns (t: State)
    requires Library(env) && Typed(env, e) && Head(k) < lev && Placed(code, g) && Rel(c, m, s) && |code| < TWO63
    requires var r := ParseExpr(env, lev, PState(Tokens(Fitted(e, lev, Head(k)), k), before, ty));
      r.Ok? ==> r.s.code <= code
    requires s.pc == |before| && Eval(g, env, e, c, s.a, m, fuel).Val?
    ensures var r := ParseExpr(env, lev, PState(Tokens(Fitted(e, lev, Head(k)), k), before, ty));
      var v := Eval(g, env, e, c, s.a, m, fuel);
      r.Ok? && r.s.toks == k && Goes(code, c, s, t, |r.s.code|, v.v, v.m)
  {
    hide Rel, Seg, At, Placed, Eval, Compile, Type, Typed, ParseExpr, Tokens, Fitted;
    PrecedenceClimbing(env, e, lev, k, before, ty);
    AtPrefix(code, before, Compile(env, e, |before|));
    t := ExprRuns(code, g, env, e, c, m, fuel, s);
  }

  // ----- ++ and -- on characters -----

  /** `x++` and `x--` yield the value that was loaded, exactly except when a `char` is stored back and
      the moved value is not one: the correction is not truncated to a character. */
  lemma PostIncValue(g: Program, env: Env, inc: bool, x: Expr, c: Ctx, a: word, m: Mem, fuel: nat)
    requires Eval(g, env, PostInc(inc, x), c, a, m, fuel).Val?
    ensures EvalAddr(g, env, x, c, a, m, fuel).Val?
    ensures var p := EvalAddr(g, env, x, c, a, m, fuel);
      LoadRes(LastLoad(env, x), p.m, p.v).Val?
      && (Eval(g, env, PostInc(inc, x), c, a, m, fuel).v == LoadRes(LastLoad(env, x), p.m, p.v).v
          <==> (Type(env, x) == CHAR ==> -128 <= LoadRes(LastLoad(env, x), p.m, p.v).v + (if inc then 1 else -1) < 128))
  {
    hide Eval, EvalAddr, Type, LastLoad, StoreTo, Decode, Range;
    var p := EvalAddr(g, env, x, c, a, m, fuel);
    var b := Bump(env, inc, x, c, p);
    EvalPostInc(g, env, inc, x, c, a, m, fuel);
    var was := LoadRes(LastLoad(env, x), p.m, p.v).v;
    var u := if inc then Unit(Type(env, x)) else -Unit(Type(env, x));
    assert b.v == Stored(StoreOp(Type(env, x)), Wrap(was + u));
    WrapBack(was, u);
    if Type(env, x) == CHAR {
      assert -128 <= was + u < 128 ==> SignedByte(was + u) == was + u;
    }
  }

  /** A concrete case: `((char)i)++` with 300 in the `int` variable `i` yields 44. */
  lemma PostIncOfCast(env: Env, m: Mem, c: Ctx)
    requires env == Env([Sym(GLO, INT, 0)], 0) && ReadWord(m, 0) == Some(300) && 0 in c.own && Room(c, 2)
    ensures var e := PostInc(true, Paren(Cast(false, 0, Var(0))));
      Library(env) && Typed(env, e) && Eval(map[], env, e, c, 0, m, 0) == Val(44, WriteChar(m, 0, 301))
  {
    hide ReadWord, Eval, EvalAddr, LastLoad, Type, Typed, Bump, LoadRes, AluImm, WriteChar;
    var x := Paren(Cast(false, 0, Var(0)));
    VarCast(env, c, m);
    BumpOfCast(env, x, c, m);
    EvalPostInc(map[], env, true, x, c, 0, m, 0);
    BackByOne(c, WriteChar(m, 0, 301));
    assert Eval(map[], env, PostInc(true, x), c, 0, m, 0) == Val(44, WriteChar(m, 0, 301));
  }

  lemma BackByOne(c: Ctx, m: Mem)
    requires Room(c, 2)
    ensures AluImm(SUB, c, Val(45, m), Unit(CHAR)) == Val(44, m)
  {
  }

  lemma BumpOfCast(env: Env, x: Expr, c: Ctx, m: Mem)
    requires LastLoad(env, x) == LI && Type(env, x) == CHAR && ReadWord(m, 0) == Some(300)
    requires Room(c, 2) && 0 in c.own
    ensures Bump(env, true, x, c, Val(0, m)) == Val(45, WriteChar(m, 0, 301))
  {
    hide ReadWord, LastLoad, Type;
    assert SignedByte(301) == 45;
  }

  lemma VarCast(env: Env, c: Ctx, m: Mem)
    requires env == Env([Sym(GLO, INT, 0)], 0)
    ensures var x := Paren(Cast(false, 0, Var(0)));
      && Typed(env, PostInc(true, x)) && LastLoad(env, x) == LI && Type(env, x) == CHAR
      && EvalAddr(map[], env, x, c, 0, m, 0) == Val(0, m)
  {
    var y := Cast(false, 0, Var(0));
    assert EvalAddr(map[], env, Var(0), c, 0, m, 0) == Val(0, m);
    assert EvalAddr(map[], env, y, c, 0, m, 0) == Val(0, m);
    assert LastLoad(env, y) == LI && Typed(env, y) && Lvalue(env, y);
    assert Typed(env, Paren(y)) && Lvalue(env, Paren(y)) && LastLoad(env, Paren(y)) == LI;
  }

  lemma EvalPostInc(g: Program, env: Env, inc: bool, x: Expr, c: Ctx, a: word, m: Mem, fuel: nat)
    ensures Eval(g, env, PostInc(inc, x), c, a, m, fuel) ==
      AluImm(if inc then SUB else ADD, c, Bump(env, inc, x, c, EvalAddr(g, env, x, c, a, m, fuel)), Unit(Type(env, x)))
  {
  }

  lemma WrapBack(x: word, u: int)
    ensures Wrap(Wrap(x + u) - u) == x
  {
    assert (Wrap(x + u) - (x + u)) % TWO64 == 0;
    assert (Wrap(Wrap(x + u) - u) - (Wrap(x + u) - u)) % TWO64 == 0;
  }
}
